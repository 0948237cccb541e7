/** Descriptors and file handles, accounted for by client. The outside world picks their numbers; these classes see to
    it that nothing is closed twice, shared or forgotten.

    Here and elsewhere some predicates are written behind one case, as `forall x | x == v :: P(x)`. That says P(v), but
    the verifier unfolds it only where a proof mentions P(v), and proofs that merely pass it on stay short. */
module Resources {

  /** The open descriptors on the client side. `fds` lists those of each client, by the client's number. */
  class Descriptors {
    var open: set<int>
    ghost var fds: map<nat, set<int>>
    ghost var owner: map<int, nat>

    /** The open descriptors are the disjoint union of the clients'; behind one case. */
    ghost predicate Valid()
      reads this
    {
      forall o: set<int> | o == open :: Owned(o)
    }

    ghost predicate Owned(open: set<int>)
      reads this
    {
      && owner.Keys == open && (forall s | s in open :: s >= 0)
      && (forall s | s in owner :: owner[s] in fds && s in fds[owner[s]])
      && (forall id, s | id in fds && s in fds[id] :: s in owner && owner[s] == id)
    }

    constructor ()
      ensures Valid() && open == {} && fds == map[]
    {
      open, fds, owner := {}, map[], map[];
    }

    /** A number that no open descriptor has. */
    method Unused() returns (s: nat)
      ensures s !in open
    {
      var any: int := *;
      s := if any >= 0 then any else 0;
      if s in open {
        s := 0;
        ghost var left := open;
        while s in open
          invariant left <= open && forall x | x in open && x >= s :: x in left
          decreases left
        {
          left := left - {s};
          s := s + 1;
        }
      }
    }

    /** net_accept on the server's socket: a new descriptor for the new client `id`, or a negative error. */
    method Accept(ghost id: nat, granted: bool) returns (s: int)
      requires Valid() && id !in fds
      modifies this
      ensures Valid() && (s >= 0 <==> granted) && (s >= 0 ==> s !in old(open))
      ensures open == if s >= 0 then old(open) + {s} else old(open)
      ensures fds == if s >= 0 then old(fds)[id := {s}] else old(fds)
      ensures fds - {id} == old(fds) - {id}
    {
      assert Owned(open);
      if granted {
        s := Unused();
        open, fds, owner := open + {s}, fds[id := {s}], owner[s := id];
      } else {
        s := SomeError();
      }
    }

    /** net_socket, or net_accept on a passive socket: a new descriptor of client `id`, or a negative error. */
    method Open(ghost id: nat, granted: bool) returns (s: int)
      requires Valid() && id in fds
      modifies this
      ensures Valid() && (s >= 0 <==> granted) && (s >= 0 ==> s !in old(open) && s !in old(fds)[id])
      ensures open == if s >= 0 then old(open) + {s} else old(open)
      ensures fds == if s >= 0 then old(fds)[id := old(fds)[id] + {s}] else old(fds)
      ensures fds - {id} == old(fds) - {id}
    {
      assert Owned(open);
      if granted {
        s := Unused();
        open, fds, owner := open + {s}, fds[id := fds[id] + {s}], owner[s := id];
      } else {
        s := SomeError();
      }
    }

    method SomeError() returns (s: int)
      ensures s < 0
    {
      s := *;
      if s >= 0 {
        s := -1;
      }
    }

    /** net_close: only of an open descriptor, and only on behalf of the client that has it. */
    method Close(s: int, ghost id: nat)
      requires Valid() && id in fds && s in fds[id]
      modifies this
      ensures Valid() && open == old(open) - {s} && fds == old(fds)[id := old(fds)[id] - {s}]
      ensures fds - {id} == old(fds) - {id}
    {
      assert Owned(open) && owner[s] == id;
      open, fds, owner := open - {s}, fds[id := fds[id] - {s}], owner - {s};
      forall i, x | i in fds && x in fds[i]
        ensures x in owner && owner[x] == i
      {
        assert x in old(fds)[i] && old(owner)[x] == i;
      }
    }

    /** A client without descriptors leaves. */
    ghost method Forget(id: nat)
      requires Valid() && id in fds && fds[id] == {}
      modifies `fds
      ensures Valid() && fds == old(fds) - {id}
      ensures fds - {id} == old(fds) - {id}
    {
      assert Owned(open);
      fds := fds - {id};
    }
  }

  /** The open file and directory handles. `held` lists those of each client's transfer; `leaked` are those that nobody
      is going to close. */
  class Handles {
    var open: set<nat>
    ghost var held: map<nat, set<nat>>
    ghost var holder: map<nat, nat>
    ghost var leaked: set<nat>

    /** The open handles are the disjoint union of those held and those leaked; behind one case. */
    ghost predicate Valid()
      reads this
    {
      forall o: set<nat> | o == open :: Owned(o)
    }

    ghost predicate Owned(open: set<nat>)
      reads this
    {
      && open == holder.Keys + leaked && holder.Keys !! leaked
      && (forall f | f in holder :: holder[f] in held && f in held[holder[f]])
      && (forall id, f | id in held && f in held[id] :: f in holder && holder[f] == id)
    }

    constructor ()
      ensures Valid() && open == {} && held == map[] && leaked == {}
    {
      open, held, holder, leaked := {}, map[], map[], {};
    }

    /** When no client holds a handle, only lost ones are open. */
    lemma OnlyLeaked()
      requires Valid() && forall id | id in held :: held[id] == {}
      ensures open == leaked
    {
      assert Owned(open);
      assert holder.Keys == {};
    }

    ghost method Welcome(id: nat)
      requires Valid() && id !in held
      modifies `held
      ensures Valid() && held == old(held)[id := {}]
      ensures held - {id} == old(held) - {id}
    {
      assert Owned(open);
      held := held[id := {}];
    }

    /** fopen or diropen that succeeded: a handle that is not open yet. */
    method Open(ghost id: nat) returns (f: nat)
      requires Valid() && id in held
      modifies this
      ensures Valid() && f !in old(open) && open == old(open) + {f}
      ensures held == old(held)[id := old(held)[id] + {f}] && leaked == old(leaked)
      ensures held - {id} == old(held) - {id}
    {
      assert Owned(open);
      f := Unused();
      open, held, holder := open + {f}, held[id := held[id] + {f}], holder[f := id];
    }

    method Unused() returns (f: nat)
      ensures f !in open
    {
      f := *;
      if f in open {
        f := 0;
        ghost var left := open;
        while f in open
          invariant left <= open && forall x | x in open && x >= f :: x in left
          decreases left
        {
          left := left - {f};
          f := f + 1;
        }
      }
    }

    /** fclose or dirclose: only of an open handle, and only on behalf of the client that holds it. */
    method Close(f: nat, ghost id: nat)
      requires Valid() && id in held && f in held[id]
      modifies this
      ensures Valid() && open == old(open) - {f} && held == old(held)[id := old(held)[id] - {f}] && leaked == old(leaked)
      ensures held - {id} == old(held) - {id}
    {
      assert Owned(open) && holder[f] == id;
      open, held, holder := open - {f}, held[id := held[id] - {f}], holder - {f};
      forall i, x | i in held && x in held[i]
        ensures x in holder && holder[x] == i
      {
        assert x in old(held)[i] && old(holder)[x] == i;
      }
    }

    /** The client drops a handle without closing it. */
    ghost method Leak(f: nat, id: nat)
      requires Valid() && id in held && f in held[id]
      modifies `held, `holder, `leaked
      ensures Valid() && held == old(held)[id := old(held)[id] - {f}]
      ensures leaked == old(leaked) + {f} && |leaked| == |old(leaked)| + 1
      ensures held - {id} == old(held) - {id}
    {
      assert Owned(open);
      held, holder, leaked := held[id := held[id] - {f}], holder - {f}, leaked + {f};
    }

    ghost method Forget(id: nat)
      requires Valid() && id in held && held[id] == {}
      modifies `held
      ensures Valid() && held == old(held) - {id}
      ensures held - {id} == old(held) - {id}
    {
      assert Owned(open);
      held := held - {id};
    }
  }
}
