/** The partition table of fs.c: the virtual roots a client sees and the device prefixes behind them. */
module Partitions {
  import opened CStrings

  datatype Partition = Partition(alias: string, mountPoint: string, prefix: string)

  const PARTITIONS: seq<Partition> := [
    Partition("/carda", "carda", "carda:/"),
    Partition("/cardb", "cardb", "cardb:/"),
    Partition("/sd", "sd", "sd:/"),
    Partition("/usb", "usb", "usb:/"),
    Partition("/dvd", "dvd", "dvd:/"),
    Partition("/wod", "wod", "wod:/"),
    Partition("/fst", "fst", "fst:/"),
    Partition("/nand", "nand", "nand:/"),
    Partition("/isfs", "isfs", "isfs:/"),
    Partition("/otp", "otp", "otp:/"),
    Partition("/seeprom", "seeprom", "seeprom:/")
  ]

  predicate IsLowerLetter(c: char) {
    'a' <= c <= 'z'
  }

  /** Alias, mount point and prefix of an entry are one lower-case name in three spellings. */
  predicate WellSpelt(p: Partition) {
    && p.mountPoint != ""
    && (forall k | 0 <= k < |p.mountPoint| :: IsLowerLetter(p.mountPoint[k]))
    && p.alias == "/" + p.mountPoint
    && p.prefix == p.mountPoint + ":/"
  }

  lemma TableSpelling(i: nat)
    requires i < |PARTITIONS|
    ensures WellSpelt(PARTITIONS[i])
  {
    if i < 4 {
      CardSpelling(i);
    } else if i < 8 {
      DiscSpelling(i);
    } else {
      assert WellSpelt(PARTITIONS[8]);
      assert WellSpelt(PARTITIONS[9]);
      assert WellSpelt(PARTITIONS[10]);
    }
  }

  lemma CardSpelling(i: nat)
    requires i < 4
    ensures WellSpelt(PARTITIONS[i])
  {
    assert WellSpelt(PARTITIONS[0]);
    assert WellSpelt(PARTITIONS[1]);
    assert WellSpelt(PARTITIONS[2]);
    assert WellSpelt(PARTITIONS[3]);
  }

  lemma DiscSpelling(i: nat)
    requires 4 <= i < 8
    ensures WellSpelt(PARTITIONS[i])
  {
    assert WellSpelt(PARTITIONS[4]);
    assert WellSpelt(PARTITIONS[5]);
    assert WellSpelt(PARTITIONS[6]);
    assert WellSpelt(PARTITIONS[7]);
  }

  lemma NameFacts(i: nat)
    requires i < |PARTITIONS|
    ensures WellSpelt(PARTITIONS[i])
    ensures '/' !in PARTITIONS[i].mountPoint && ':' !in PARTITIONS[i].mountPoint
    ensures LowerAll(PARTITIONS[i].mountPoint) == PARTITIONS[i].mountPoint
  {
    TableSpelling(i);
    var name := PARTITIONS[i].mountPoint;
    forall k | 0 <= k < |name|
      ensures name[k] != '/' && name[k] != ':' && LowerAll(name)[k] == name[k]
    {
      assert IsLowerLetter(name[k]);
    }
  }

  lemma NamesDistinct(i: nat, j: nat)
    requires i < |PARTITIONS| && j < |PARTITIONS| && PARTITIONS[i].mountPoint == PARTITIONS[j].mountPoint
    ensures i == j
  {
    var name := PARTITIONS[i].mountPoint;
    assert PARTITIONS[i].mountPoint[0] == PARTITIONS[j].mountPoint[0];
    assert |PARTITIONS[i].mountPoint| == |PARTITIONS[j].mountPoint|;
    if |name| == 5 {
      assert PARTITIONS[i].mountPoint[4] == PARTITIONS[j].mountPoint[4];
    }
  }
}
