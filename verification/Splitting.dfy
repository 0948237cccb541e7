/** split (ftp.c): cutting a command line into words and a trimmed remainder, in one pass over the bytes. */
module Splitting {
  import opened CStrings

  predicate Free(w: string, sep: char) {
    forall k | 0 <= k < |w| :: w[k] != sep
  }

  /** Neither end is a separator. */
  predicate Trimmed(t: string, sep: char) {
    t != "" ==> t[0] != sep && t[|t| - 1] != sep
  }

  function TrimLeft(s: string, sep: char): (r: string)
    ensures |r| <= |s| && (r != "" ==> r[0] != sep)
    decreases |s|
  {
    if s != "" && s[0] == sep then TrimLeft(s[1..], sep) else s
  }

  function TrimRight(s: string, sep: char): (r: string)
    ensures |r| <= |s| && r == s[..|r|] && (r != "" ==> r[|r| - 1] != sep)
    decreases |s|
  {
    if s != "" && s[|s| - 1] == sep then TrimRight(s[..|s| - 1], sep) else s
  }

  /** The maximal separator-free run that `s` starts with. */
  function Word(s: string, sep: char): (w: string)
    ensures w <= s && Free(w, sep)
    ensures |w| < |s| ==> s[|w|] == sep
  {
    if s == "" || s[0] == sep then "" else [s[0]] + Word(s[1..], sep)
  }

  /** The declarative split: up to `n` words, then what is left, trimmed at both ends. */
  function SplitAt(s: string, sep: char, n: nat): (r: seq<string>)
    ensures |r| <= n + 1
    decreases n
  {
    var t := TrimLeft(s, sep);
    if t == "" then []
    else if n == 0 then [TrimRight(t, sep)]
    else [Word(t, sep)] + SplitAt(t[|Word(t, sep)|..], sep, n - 1)
  }

  lemma SplitSkip(c: char, rest: string, sep: char, n: nat)
    requires c == sep
    ensures SplitAt([c] + rest, sep, n) == SplitAt(rest, sep, n)
  {
    assert ([c] + rest)[1..] == rest;
  }

  lemma {:induction false} WordOf(w: string, rest: string, sep: char)
    requires Free(w, sep) && (rest != "" ==> rest[0] == sep)
    ensures Word(w + rest, sep) == w
  {
    if w != "" {
      assert (w + rest)[1..] == w[1..] + rest;
      WordOf(w[1..], rest, sep);
    } else {
      assert w + rest == rest;
    }
  }

  lemma SplitWord(w: string, rest: string, sep: char, n: nat)
    requires w != "" && Free(w, sep) && (rest != "" ==> rest[0] == sep) && n > 0
    ensures SplitAt(w + rest, sep, n) == [w] + SplitAt(rest, sep, n - 1)
  {
    var s := w + rest;
    assert s[0] == w[0];
    WordOf(w, rest, sep);
    assert s[|w|..] == rest;
  }

  lemma TrimRightStep(t: string, c: char, sep: char)
    ensures TrimRight(t + [c], sep) == if c == sep then TrimRight(t, sep) else t + [c]
  {
    assert (t + [c])[..|t|] == t;
  }

  // ---- The one-pass algorithm

  /** The caller's buffers: distinct, and each big enough for the whole line. */
  ghost predicate Room(result: seq<array<char>>, s: string) {
    && (forall i, j | 0 <= i < j < |result| :: result[i] != result[j])
    && (forall i | 0 <= i < |result| :: |s| < result[i].Length)
  }

  ghost predicate Stored(result: seq<array<char>>, words: seq<string>)
    reads result
  {
    && |words| <= |result|
    && forall k | 0 <= k < |words| :: Holds(result[k], words[k])
  }

  /** What the words stored so far and the unread bytes `rest` still owe to the declarative split `goal`. */
  ghost predicate Owes(goal: seq<string>, words: seq<string>, inWord: bool, rest: string, sep: char, maxsplit: nat) {
    var num := |words|;
    if !inWord then num <= maxsplit && goal == words + SplitAt(rest, sep, maxsplit - num)
    else
      && 0 < num <= maxsplit + 1
      && words[num - 1] != ""
      && if num <= maxsplit
         then Free(words[num - 1], sep)
           && goal == words[..num - 1] + SplitAt(words[num - 1] + rest, sep, maxsplit - num + 1)
         else goal == words[..maxsplit] + [TrimRight(words[maxsplit] + rest, sep)]
  }

  /** The words after reading one more byte, as the algorithm stores them. */
  function Store(words: seq<string>, inWord: bool, c: char): seq<string>
    requires inWord ==> words != []
  {
    if inWord then words[..|words| - 1] + [words[|words| - 1] + [c]] else words + [[c]]
  }

  lemma OwesOpen(goal: seq<string>, words: seq<string>, c: char, rest: string, sep: char, maxsplit: nat)
    requires Owes(goal, words, false, [c] + rest, sep, maxsplit) && c != sep
    ensures Owes(goal, words + [[c]], true, rest, sep, maxsplit)
  {
    assert (words + [[c]])[..|words|] == words;
    assert TrimLeft([c] + rest, sep) == [c] + rest;
  }

  lemma OwesClose(goal: seq<string>, words: seq<string>, c: char, rest: string, sep: char, maxsplit: nat)
    requires Owes(goal, words, true, [c] + rest, sep, maxsplit) && c == sep && |words| <= maxsplit
    ensures Owes(goal, words, false, rest, sep, maxsplit)
  {
    var init, last := words[..|words| - 1], words[|words| - 1];
    SplitWord(last, [c] + rest, sep, maxsplit - |words| + 1);
    SplitSkip(c, rest, sep, maxsplit - |words|);
    assert init + [last] == words;
    assert init + ([last] + SplitAt(rest, sep, maxsplit - |words|)) == words + SplitAt(rest, sep, maxsplit - |words|);
  }

  lemma OwesGrow(goal: seq<string>, words: seq<string>, c: char, rest: string, sep: char, maxsplit: nat)
    requires Owes(goal, words, true, [c] + rest, sep, maxsplit) && (c != sep || |words| > maxsplit)
    ensures Owes(goal, Store(words, true, c), true, rest, sep, maxsplit)
  {
    var init, last := words[..|words| - 1], words[|words| - 1];
    var words' := init + [last + [c]];
    assert words'[..|words| - 1] == init;
    assert last + ([c] + rest) == (last + [c]) + rest;
  }

  lemma OwesStep(goal: seq<string>, words: seq<string>, inWord: bool, c: char, rest: string, sep: char, maxsplit: nat)
    requires Owes(goal, words, inWord, [c] + rest, sep, maxsplit)
    ensures c == sep && |words| <= maxsplit ==> Owes(goal, words, false, rest, sep, maxsplit)
    ensures c != sep || |words| > maxsplit ==> Owes(goal, Store(words, inWord, c), true, rest, sep, maxsplit)
  {
    if c == sep && |words| <= maxsplit {
      if inWord {
        OwesClose(goal, words, c, rest, sep, maxsplit);
      } else {
        SplitSkip(c, rest, sep, maxsplit - |words|);
      }
    } else if inWord {
      OwesGrow(goal, words, c, rest, sep, maxsplit);
    } else {
      OwesOpen(goal, words, c, rest, sep, maxsplit);
    }
  }

  lemma OwesNothing(goal: seq<string>, words: seq<string>, inWord: bool, sep: char, maxsplit: nat)
    requires Owes(goal, words, inWord, "", sep, maxsplit)
    ensures |goal| == |words|
    ensures goal == if |words| <= maxsplit then words else words[..maxsplit] + [TrimRight(words[maxsplit], sep)]
  {
    var num := |words|;
    assert SplitAt("", sep, 0) == [];
    if inWord {
      var last := words[num - 1];
      assert last + "" == last;
      if num <= maxsplit {
        SplitWord(last, "", sep, maxsplit - num + 1);
        assert words[..num - 1] + [last] == words;
      }
    }
  }

  /** In the last slot, `trimPos` is where its trailing separators start, or 0 when it has none. */
  ghost predicate TrimPosFor(last: string, trimPos: nat, sep: char) {
    && last != "" && last[0] != sep && TrimRight(last, sep) != ""
    && trimPos == if last[|last| - 1] == sep then |TrimRight(last, sep)| else 0
  }

  /** Everything the loop of `Split` knows after `i` bytes, buffers aside. */
  ghost predicate Scanning(s: string, sep: char, maxsplit: nat, i: nat, words: seq<string>, resultPos: nat,
                           trimPos: nat, inWord: bool) {
    && i <= |s| && |words| <= maxsplit + 1
    && Owes(SplitAt(s, sep, maxsplit), words, inWord, s[i..], sep, maxsplit)
    && (words != [] ==> resultPos == |words[|words| - 1]| <= i)
    && if |words| <= maxsplit then trimPos == 0 else inWord && TrimPosFor(words[maxsplit], trimPos, sep)
  }

  /** The same, behind one case. */
  ghost predicate Known(s: string, sep: char, maxsplit: nat, i: nat, words: seq<string>, resultPos: nat, trimPos: nat,
                        inWord: bool) {
    && (inWord ==> words != [])
    && forall w | w == words :: Scanning(s, sep, maxsplit, i, w, resultPos, trimPos, inWord)
  }

  lemma KnownAtStart(s: string, sep: char, maxsplit: nat)
    ensures Known(s, sep, maxsplit, 0, [], 0, 0, false)
  {
    assert s[0..] == s;
    assert [] + SplitAt(s, sep, maxsplit) == SplitAt(s, sep, maxsplit);
  }

  /** What the next byte needs to know about the slot it goes to. */
  lemma KnownSlot(s: string, sep: char, maxsplit: nat, i: nat, words: seq<string>, resultPos: nat, trimPos: nat, inWord: bool)
    requires Known(s, sep, maxsplit, i, words, resultPos, trimPos, inWord)
    ensures |words| <= maxsplit + 1
    ensures if inWord then words != [] && resultPos == |words[|words| - 1]| <= i else |words| <= maxsplit
  {
    assert Scanning(s, sep, maxsplit, i, words, resultPos, trimPos, inWord);
  }

  lemma KnownAtEnd(s: string, sep: char, maxsplit: nat, words: seq<string>, resultPos: nat, trimPos: nat, inWord: bool)
    requires Known(s, sep, maxsplit, |s|, words, resultPos, trimPos, inWord)
    ensures Finished(SplitAt(s, sep, maxsplit), sep, maxsplit, words, trimPos)
  {
    assert Scanning(s, sep, maxsplit, |s|, words, resultPos, trimPos, inWord);
    assert s[|s|..] == "";
    OwesNothing(SplitAt(s, sep, maxsplit), words, inWord, sep, maxsplit);
  }

  lemma SkipByte(s: string, sep: char, maxsplit: nat, i: nat, words: seq<string>, resultPos: nat, trimPos: nat, inWord: bool)
    requires Known(s, sep, maxsplit, i, words, resultPos, trimPos, inWord)
    requires i < |s| && s[i] == sep && |words| <= maxsplit
    ensures Known(s, sep, maxsplit, i + 1, words, resultPos, trimPos, false)
  {
    assert Scanning(s, sep, maxsplit, i, words, resultPos, trimPos, inWord);
    NextByte(s, i);
    OwesStep(SplitAt(s, sep, maxsplit), words, inWord, s[i], s[i + 1..], sep, maxsplit);
  }

  lemma NextByte(s: string, i: nat)
    requires i < |s|
    ensures s[i..] == [s[i]] + s[i + 1..]
  {
  }

  lemma StoreByte(s: string, sep: char, maxsplit: nat, i: nat, words: seq<string>, resultPos: nat, trimPos: nat, inWord: bool)
    requires Known(s, sep, maxsplit, i, words, resultPos, trimPos, inWord)
    requires i < |s| && (s[i] != sep || |words| > maxsplit) && (inWord ==> words != [])
    ensures Known(s, sep, maxsplit, i + 1, Store(words, inWord, s[i]), if inWord then resultPos + 1 else 1,
                  if s[i] != sep then 0 else if trimPos == 0 then resultPos else trimPos, true)
  {
    assert Scanning(s, sep, maxsplit, i, words, resultPos, trimPos, inWord);
    var words' := Store(words, inWord, s[i]);
    NextByte(s, i);
    OwesStep(SplitAt(s, sep, maxsplit), words, inWord, s[i], s[i + 1..], sep, maxsplit);
    if |words'| == maxsplit + 1 {
      TrimPosStep(if inWord then words[maxsplit] else "", s[i], trimPos, sep);
    }
  }

  /** One more byte in the last slot, which a byte other than a separator has opened. */
  lemma TrimPosStep(last: string, c: char, trimPos: nat, sep: char)
    requires if last == "" then c != sep else TrimPosFor(last, trimPos, sep)
    ensures TrimPosFor(last + [c], if c != sep then 0 else if trimPos == 0 then |last| else trimPos, sep)
  {
    TrimRightStep(last, c, sep);
  }

  /** split: the number of strings stored; every buffer ends up holding its string, unused ones the empty string. */
  method Split(s: string, sep: char, maxsplit: nat, result: seq<array<char>>) returns (numResults: nat)
    requires NUL !in s && sep != NUL
    requires |result| == maxsplit + 1 && Room(result, s)
    modifies result
    ensures numResults == |SplitAt(s, sep, maxsplit)|
    ensures Stored(result, SplitAt(s, sep, maxsplit) + seq(maxsplit + 1 - numResults, _ => ""))
  {
    numResults := 0;
    var resultPos, trimPos, inWord := 0, 0, false;
    ghost var words := [];
    KnownAtStart(s, sep, maxsplit);
    for i := 0 to |s|
      invariant numResults == |words| && Stored(result, words)
      invariant Known(s, sep, maxsplit, i, words, resultPos, trimPos, inWord)
    {
      if s[i] == sep && numResults <= maxsplit {
        SkipByte(s, sep, maxsplit, i, words, resultPos, trimPos, inWord);
        inWord := false;
        continue;
      }
      numResults, resultPos, trimPos, words :=
        TakeByte(s, sep, maxsplit, i, result, numResults, resultPos, trimPos, inWord, words);
      inWord := true;
    }
    KnownAtEnd(s, sep, maxsplit, words, resultPos, trimPos, inWord);
    FinishSplit(SplitAt(s, sep, maxsplit), sep, maxsplit, result, numResults, trimPos, words);
  }

  /** A byte that is not skipped: it opens the next slot or joins the current one, separators included in the last. */
  method TakeByte(s: string, sep: char, maxsplit: nat, i: nat, result: seq<array<char>>, num: nat, pos: nat, trim: nat,
                  inWord: bool, ghost words: seq<string>)
    returns (numResults: nat, resultPos: nat, trimPos: nat, ghost words': seq<string>)
    requires |result| == maxsplit + 1 && Room(result, s) && num == |words| && Stored(result, words)
    requires Known(s, sep, maxsplit, i, words, pos, trim, inWord)
    requires i < |s| && s[i] != NUL && (s[i] != sep || num > maxsplit)
    modifies result
    ensures words' == Store(words, inWord, s[i])
    ensures Stored(result, words') && numResults == |words'|
    ensures resultPos == if inWord then pos + 1 else 1
    ensures trimPos == if s[i] != sep then 0 else if trim == 0 then pos else trim
    ensures Known(s, sep, maxsplit, i + 1, words', resultPos, trimPos, true)
  {
    KnownSlot(s, sep, maxsplit, i, words, pos, trim, inWord);
    StoreByte(s, sep, maxsplit, i, words, pos, trim, inWord);
    numResults, resultPos, trimPos, words' := num, pos, trim, Store(words, inWord, s[i]);
    if s[i] == sep {
      if trimPos == 0 {
        trimPos := resultPos;
      }
    } else if trimPos != 0 {
      trimPos := 0;
    }
    if !inWord {
      if numResults <= maxsplit {
        numResults := numResults + 1;
        resultPos := 0;
      }
    }
    PutChar(result, numResults - 1, resultPos, s[i], words, words');
    resultPos := resultPos + 1;
  }

  /** All bytes are read: the words are the goal, but for the separators at the end of the last slot. */
  ghost predicate Finished(goal: seq<string>, sep: char, maxsplit: nat, words: seq<string>, trimPos: nat) {
    && |words| == |goal| <= maxsplit + 1
    && if |words| <= maxsplit then goal == words && trimPos == 0
       else goal == words[..maxsplit] + [TrimRight(words[maxsplit], sep)] && TrimPosFor(words[maxsplit], trimPos, sep)
  }

  /** The end of split: cut the trailing separators off the last slot and empty the unused slots. */
  method FinishSplit(ghost goal: seq<string>, ghost sep: char, maxsplit: nat, result: seq<array<char>>,
                     numResults: nat, trimPos: nat, ghost words: seq<string>)
    requires |result| == maxsplit + 1 && Room(result, "")
    requires numResults == |words| && Stored(result, words) && Finished(goal, sep, maxsplit, words, trimPos)
    modifies result
    ensures Stored(result, goal + seq(maxsplit + 1 - numResults, _ => ""))
  {
    if trimPos != 0 {
      CutSlot(result, trimPos, words, goal);
    }
    Padded(goal, 0);
    for i := numResults to maxsplit + 1
      invariant Room(result, "") && Stored(result, goal + seq(i - numResults, _ => ""))
    {
      EmptySlot(result, i, goal + seq(i - numResults, _ => ""));
      Padded(goal, i - numResults);
    }
  }

  /** `result[i][0] = '\0'` in the first unused slot. */
  method EmptySlot(result: seq<array<char>>, i: nat, ghost words: seq<string>)
    requires |words| == i < |result| && (forall i, j | 0 <= i < j < |result| :: result[i] != result[j])
    requires Stored(result, words) && result[i].Length > 0
    modifies result[i]
    ensures Stored(result, words + [""])
  {
    result[i][0] := NUL;
    assert result[i][..0] == "";
  }

  lemma Padded(goal: seq<string>, n: nat)
    ensures goal + seq(n + 1, _ => "") == goal + seq(n, _ => "") + [""]
    ensures goal + seq(0, _ => "") == goal
  {
  }

  /** `result[i][trim_pos] = '\0'` in the last slot. */
  method CutSlot(result: seq<array<char>>, pos: nat, ghost words: seq<string>, ghost goal: seq<string>)
    requires |result| == |words| > 0 && (forall i, j | 0 <= i < j < |result| :: result[i] != result[j])
    requires Stored(result, words) && pos < |words[|words| - 1]|
    requires goal == words[..|words| - 1] + [words[|words| - 1][..pos]]
    modifies result[|result| - 1]
    ensures Stored(result, goal)
  {
    var k := |result| - 1;
    result[k][pos] := NUL;
    assert result[k][..pos] == words[k][..pos];
  }

  /** Append one byte to slot `k`, NUL-terminating it. */
  method PutChar(result: seq<array<char>>, k: nat, pos: nat, c: char, ghost words: seq<string>, ghost words': seq<string>)
    requires k < |result| && (forall i, j | 0 <= i < j < |result| :: result[i] != result[j])
    requires c != NUL && Stored(result, words) && |words'| == k + 1
    requires || (|words| == k && pos == 0 && words' == words + [[c]])
             || (|words| == k + 1 && pos == |words[k]| && words' == words[..k] + [words[k] + [c]])
    requires pos + 1 < result[k].Length
    modifies result[k]
    ensures Stored(result, words')
  {
    result[k][pos] := c;
    result[k][pos + 1] := NUL;
    assert result[k][..pos + 1] == words'[k];
  }

  // ---- What the declarative split promises

  lemma TrimRightKeeps(t: string, sep: char)
    requires t != "" && t[0] != sep
    ensures TrimRight(t, sep) != "" && TrimRight(t, sep)[0] == t[0]
    decreases |t|
  {
  }

  /** Words are separator-free, the remainder is trimmed, and nothing stored is empty. */
  lemma {:induction false} SplitShape(s: string, sep: char, n: nat, k: nat)
    requires k < |SplitAt(s, sep, n)|
    ensures SplitAt(s, sep, n)[k] != ""
    ensures if k < n then Free(SplitAt(s, sep, n)[k], sep) else Trimmed(SplitAt(s, sep, n)[k], sep)
    decreases n
  {
    var t := TrimLeft(s, sep);
    if n == 0 {
      TrimRightKeeps(t, sep);
    } else if k > 0 {
      SplitShape(t[|Word(t, sep)|..], sep, n - 1, k - 1);
    }
  }

  /** "w1 w2 ... wk last", one separator between neighbours. */
  function Joined(words: seq<string>, last: string, sep: char): string {
    if words == [] then last else words[0] + [sep] + Joined(words[1..], last, sep)
  }

  lemma Reassociate(a: string, b: string, c: string)
    ensures a + b + c == a + (b + c)
  {
  }

  lemma HeadAndRest(words: seq<string>, last: string)
    requires words != []
    ensures [words[0]] + (words[1..] + [last]) == words + [last]
  {
  }

  /** Splitting undoes joining: a command of separator-free words and a trimmed, non-empty last argument comes
      apart again exactly. */
  lemma {:induction false} SplitUndoesJoin(words: seq<string>, last: string, sep: char)
    requires forall k | 0 <= k < |words| :: words[k] != "" && Free(words[k], sep)
    requires last != "" && Trimmed(last, sep)
    ensures SplitAt(Joined(words, last, sep), sep, |words|) == words + [last]
    decreases |words|
  {
    if words == [] {
      assert TrimRight(last, sep) == last;
    } else {
      var rest := Joined(words[1..], last, sep);
      SplitUndoesJoin(words[1..], last, sep);
      SplitWord(words[0], [sep] + rest, sep, |words|);
      SplitSkip(sep, rest, sep, |words| - 1);
      Reassociate(words[0], [sep], rest);
      HeadAndRest(words, last);
    }
  }

  /** The bytes of `s` that are not separators, in order. */
  function Squeeze(s: string, sep: char): string {
    if s == "" then "" else (if s[0] == sep then "" else [s[0]]) + Squeeze(s[1..], sep)
  }

  function SqueezeAll(words: seq<string>, sep: char): string {
    if words == [] then "" else Squeeze(words[0], sep) + SqueezeAll(words[1..], sep)
  }

  lemma {:induction false} SqueezeJoin(a: string, b: string, sep: char)
    ensures Squeeze(a + b, sep) == Squeeze(a, sep) + Squeeze(b, sep)
  {
    if a == "" {
      assert a + b == b;
    } else {
      assert (a + b)[1..] == a[1..] + b;
      SqueezeJoin(a[1..], b, sep);
    }
  }

  lemma {:induction false} SqueezeTrim(s: string, sep: char)
    ensures Squeeze(TrimLeft(s, sep), sep) == Squeeze(s, sep)
    ensures Squeeze(TrimRight(s, sep), sep) == Squeeze(s, sep)
    decreases |s|
  {
    if s != "" && s[0] == sep {
      SqueezeTrim(s[1..], sep);
    }
    if s != "" && s[|s| - 1] == sep {
      SqueezeTrim(s[..|s| - 1], sep);
      SqueezeJoin(s[..|s| - 1], [sep], sep);
      assert s[..|s| - 1] + [sep] == s;
    }
  }

  /** No byte other than a separator is lost, doubled or moved by a split. */
  lemma {:induction false} SplitKeepsBytes(s: string, sep: char, n: nat)
    ensures SqueezeAll(SplitAt(s, sep, n), sep) == Squeeze(s, sep)
    decreases n
  {
    var t := TrimLeft(s, sep);
    SqueezeTrim(s, sep);
    if t == "" {
    } else if n == 0 {
      SqueezeTrim(t, sep);
      SqueezeOne(TrimRight(t, sep), [], sep);
    } else {
      var w := Word(t, sep);
      SplitKeepsBytes(t[|w|..], sep, n - 1);
      SqueezeCut(t, w, sep);
      SqueezeOne(w, SplitAt(t[|w|..], sep, n - 1), sep);
    }
  }

  lemma SqueezeCut(t: string, w: string, sep: char)
    requires w <= t
    ensures Squeeze(w, sep) + Squeeze(t[|w|..], sep) == Squeeze(t, sep)
  {
    assert w + t[|w|..] == t;
    SqueezeJoin(w, t[|w|..], sep);
  }

  lemma SqueezeOne(w: string, xs: seq<string>, sep: char)
    ensures SqueezeAll([w] + xs, sep) == Squeeze(w, sep) + SqueezeAll(xs, sep)
  {
    assert ([w] + xs)[1..] == xs;
  }

  lemma {:induction false} TrimLeftEnd(s: string, sep: char)
    ensures TrimLeft(s + [sep], sep) == if TrimLeft(s, sep) == "" then "" else TrimLeft(s, sep) + [sep]
  {
    if s == "" {
      assert ([sep])[1..] == "";
      assert s + [sep] == [sep];
      assert TrimLeft([sep], sep) == TrimLeft("", sep);
    } else if s[0] == sep {
      assert (s + [sep])[1..] == s[1..] + [sep];
      TrimLeftEnd(s[1..], sep);
    }
  }

  lemma {:induction false} WordEnd(t: string, sep: char)
    ensures Word(t + [sep], sep) == Word(t, sep)
  {
    if t != "" {
      assert (t + [sep])[1..] == t[1..] + [sep];
      WordEnd(t[1..], sep);
    }
  }

  /** A trailing separator makes no difference to a split. */
  lemma {:induction false} SplitEnd(s: string, sep: char, n: nat)
    ensures SplitAt(s + [sep], sep, n) == SplitAt(s, sep, n)
    decreases n
  {
    TrimLeftEnd(s, sep);
    var t := TrimLeft(s, sep);
    if t == "" {
    } else if n == 0 {
      TrimRightStep(t, sep, sep);
    } else {
      WordEnd(t, sep);
      var w := Word(t, sep);
      assert (t + [sep])[|w|..] == t[|w|..] + [sep];
      SplitEnd(t[|w|..], sep, n - 1);
    }
  }

  lemma {:induction false} SplitTrimmed(s: string, sep: char, n: nat)
    ensures SplitAt(TrimRight(s, sep), sep, n) == SplitAt(s, sep, n)
    decreases |s|
  {
    if s != "" && s[|s| - 1] == sep {
      SplitTrimmed(s[..|s| - 1], sep, n);
      SplitEnd(s[..|s| - 1], sep, n);
      assert s[..|s| - 1] + [sep] == s;
    }
  }

  lemma HeadThenTake(w: string, xs: seq<string>, all: seq<string>, ys: seq<string>, more: seq<string>)
    requires xs != [] && all == [w] + xs && more == [w] + (xs[..|xs| - 1] + ys)
    ensures all[|xs|] == xs[|xs| - 1] && more == all[..|xs|] + ys
  {
  }

  /** Splitting the remainder again is one larger split: what SITE does with the argument of a command. */
  lemma {:induction false} SplitComposes(s: string, sep: char, m: nat, n: nat)
    requires |SplitAt(s, sep, m)| == m + 1
    ensures SplitAt(s, sep, m + n) == SplitAt(s, sep, m)[..m] + SplitAt(SplitAt(s, sep, m)[m], sep, n)
    decreases m
  {
    if m == 0 {
      SplitRemainder(s, sep, n);
    } else {
      var w, rest := FirstWord(s, sep, m);
      var xs := SplitAt(rest, sep, m - 1);
      SplitComposes(rest, sep, m - 1, n);
      HeadThenTake(w, xs, SplitAt(s, sep, m), SplitAt(xs[m - 1], sep, n), SplitAt(s, sep, m + n));
    }
  }

  lemma FirstWord(s: string, sep: char, m: nat) returns (w: string, rest: string)
    requires SplitAt(s, sep, m) != [] && m > 0
    ensures forall k | k > 0 :: SplitAt(s, sep, k) == [w] + SplitAt(rest, sep, k - 1)
  {
    w := Word(TrimLeft(s, sep), sep);
    rest := TrimLeft(s, sep)[|w|..];
  }

  lemma SplitRemainder(s: string, sep: char, n: nat)
    requires |SplitAt(s, sep, 0)| == 1
    ensures SplitAt(s, sep, n) == SplitAt(SplitAt(s, sep, 0)[0], sep, n)
  {
    var t := TrimLeft(s, sep);
    SplitTrimmed(t, sep, n);
    assert TrimLeft(t, sep) == t;
  }
}
