/**
 The snapshot diff of the process monitor: given the previous list of running
 processes (the baseline) and a freshly fetched one, which processes started
 and which ended. Processes are matched by name alone; the pid is carried
 along for reporting and never compared.
 */
module ProcessDiff {

  /** One entry of a process listing: what the monitor reads of it. */
  datatype Proc = Proc(name: string, pid: int)

  /** The name lookup both filters do: some record of `procs` is called `name`. */
  function NameOccurs(procs: seq<Proc>, name: string): (b: bool)
    ensures b <==> exists i :: 0 <= i < |procs| && procs[i].name == name
    decreases |procs|
  {
    if procs == [] then false
    else procs[0].name == name || NameOccurs(procs[1..], name)
  }

  /** `r` can be obtained from `xs` by deleting elements: same order, no reordering. */
  ghost predicate IsSubsequence<T>(r: seq<T>, xs: seq<T>)
    decreases |xs|
  {
    if r == [] then true
    else if xs == [] then false
    else (r[0] == xs[0] && IsSubsequence(r[1..], xs[1..])) || IsSubsequence(r, xs[1..])
  }

  /**
   The records of `xs`, in their order, whose name occurs nowhere in `others`:
   the filter both halves of the diff are made of.
   */
  function Unmatched(xs: seq<Proc>, others: seq<Proc>): seq<Proc>
    decreases |xs|
  {
    if xs == [] then []
    else if NameOccurs(others, xs[0].name) then Unmatched(xs[1..], others)
    else [xs[0]] + Unmatched(xs[1..], others)
  }

  /** The processes of the new listing `cur` whose name the baseline `prev` does not have. */
  function Started(prev: seq<Proc>, cur: seq<Proc>): seq<Proc>
  {
    Unmatched(cur, prev)
  }

  /** The processes of the baseline `prev` whose name the new listing `cur` does not have. */
  function Ended(prev: seq<Proc>, cur: seq<Proc>): seq<Proc>
  {
    Unmatched(prev, cur)
  }

  /**
   What `Unmatched` selects: a subsequence of `xs` (order kept) that holds every
   record whose name is absent from `others` exactly as often as `xs` does
   (duplicates kept), and no record whose name `others` has.
   */
  lemma {:induction false} UnmatchedSpec(xs: seq<Proc>, others: seq<Proc>)
    ensures IsSubsequence(Unmatched(xs, others), xs)
    ensures forall p :: multiset(Unmatched(xs, others))[p]
                     == if NameOccurs(others, p.name) then 0 else multiset(xs)[p]
    ensures forall p :: p in Unmatched(xs, others) <==> p in xs && !NameOccurs(others, p.name)
    decreases |xs|
  {
    if xs != [] {
      assert xs == [xs[0]] + xs[1..];
      UnmatchedSpec(xs[1..], others);
    }
  }

  /** `started` is exactly the order-preserving selection of `cur` whose names `prev` lacks. */
  lemma StartedSpec(prev: seq<Proc>, cur: seq<Proc>)
    ensures IsSubsequence(Started(prev, cur), cur)
    ensures forall p :: multiset(Started(prev, cur))[p]
                     == if NameOccurs(prev, p.name) then 0 else multiset(cur)[p]
    ensures forall p :: p in Started(prev, cur) <==> p in cur && !NameOccurs(prev, p.name)
  {
    UnmatchedSpec(cur, prev);
  }

  /** `ended` is exactly the order-preserving selection of `prev` whose names `cur` lacks. */
  lemma EndedSpec(prev: seq<Proc>, cur: seq<Proc>)
    ensures IsSubsequence(Ended(prev, cur), prev)
    ensures forall p :: multiset(Ended(prev, cur))[p]
                     == if NameOccurs(cur, p.name) then 0 else multiset(prev)[p]
    ensures forall p :: p in Ended(prev, cur) <==> p in prev && !NameOccurs(cur, p.name)
  {
    UnmatchedSpec(prev, cur);
  }

  /** A subsequence never holds an element more often than the sequence it was taken from. */
  lemma {:induction false} SubsequenceMultiset<T>(r: seq<T>, xs: seq<T>)
    requires IsSubsequence(r, xs)
    ensures multiset(r) <= multiset(xs)
    decreases |xs|
  {
    if r != [] {
      assert xs == [xs[0]] + xs[1..];
      if r[0] == xs[0] && IsSubsequence(r[1..], xs[1..]) {
        assert r == [r[0]] + r[1..];
        SubsequenceMultiset(r[1..], xs[1..]);
      } else {
        SubsequenceMultiset(r, xs[1..]);
      }
    }
  }

  /**
   The contract of `Unmatched` pins it down: any subsequence of `xs` holding each
   unmatched record exactly as often as `xs` does, and no matched record, is it.
   */
  lemma {:induction false} UnmatchedUnique(xs: seq<Proc>, others: seq<Proc>, r: seq<Proc>)
    requires IsSubsequence(r, xs)
    requires forall p :: multiset(r)[p] == if NameOccurs(others, p.name) then 0 else multiset(xs)[p]
    ensures r == Unmatched(xs, others)
    decreases |xs|
  {
    if xs != [] {
      var x, tail := xs[0], xs[1..];
      assert xs == [x] + tail;
      if !NameOccurs(others, x.name) {
        assert multiset(r)[x] == multiset(xs)[x] > 0;
        if r[0] == x && IsSubsequence(r[1..], tail) {
          assert r == [x] + r[1..];
          forall p
            ensures multiset(r[1..])[p] == if NameOccurs(others, p.name) then 0 else multiset(tail)[p]
          {
            assert multiset(r)[p] == multiset(r[1..])[p] + (if p == x then 1 else 0);
          }
          UnmatchedUnique(tail, others, r[1..]);
        } else {
          SubsequenceMultiset(r, tail);
          assert false;
        }
      } else {
        assert multiset(r)[x] == 0;
        if r != [] {
          assert r[0] in multiset(r);
          assert r[0] != x;
        }
        assert IsSubsequence(r, tail);
        forall p
          ensures multiset(r)[p] == if NameOccurs(others, p.name) then 0 else multiset(tail)[p]
        {
          if !NameOccurs(others, p.name) {
            assert p != x;
          }
        }
        UnmatchedUnique(tail, others, r);
      }
    }
  }

  /** `Started(prev, cur)` is the only order-preserving selection of `cur` that is the started set. */
  lemma StartedUnique(prev: seq<Proc>, cur: seq<Proc>, r: seq<Proc>)
    requires IsSubsequence(r, cur)
    requires forall p :: multiset(r)[p] == if NameOccurs(prev, p.name) then 0 else multiset(cur)[p]
    ensures r == Started(prev, cur)
  {
    UnmatchedUnique(cur, prev, r);
  }

  /** `Ended(prev, cur)` is the only order-preserving selection of `prev` that is the ended set. */
  lemma EndedUnique(prev: seq<Proc>, cur: seq<Proc>, r: seq<Proc>)
    requires IsSubsequence(r, prev)
    requires forall p :: multiset(r)[p] == if NameOccurs(cur, p.name) then 0 else multiset(prev)[p]
    ensures r == Ended(prev, cur)
  {
    UnmatchedUnique(prev, cur, r);
  }

  /** Against a list with no names, every record is unmatched. */
  lemma {:induction false} UnmatchedAgainstEmpty(xs: seq<Proc>)
    ensures Unmatched(xs, []) == xs
    decreases |xs|
  {
    if xs != [] {
      UnmatchedAgainstEmpty(xs[1..]);
    }
  }

  /** Nothing is unmatched exactly when every name of `xs` occurs in `others`. */
  lemma {:induction false} NothingUnmatchedIff(xs: seq<Proc>, others: seq<Proc>)
    ensures Unmatched(xs, others) == [] <==> forall i :: 0 <= i < |xs| ==> NameOccurs(others, xs[i].name)
  {
    var r := Unmatched(xs, others);
    UnmatchedSpec(xs, others);
    if r == [] {
      forall i | 0 <= i < |xs|
        ensures NameOccurs(others, xs[i].name)
      {
        assert xs[i] in xs;
      }
    } else {
      assert r[0] in r;
      assert r[0] in xs && !NameOccurs(others, r[0].name);
      var i :| 0 <= i < |xs| && xs[i] == r[0];
      assert !NameOccurs(others, xs[i].name);
    }
  }

  /**
   Only names are compared: two lists `others`, `others'` that have the same names
   (whatever their pids, order or repetitions) leave the same records unmatched.
   */
  lemma {:induction false} UnmatchedSeesOnlyNames(xs: seq<Proc>, others: seq<Proc>, others': seq<Proc>)
    requires forall n :: NameOccurs(others, n) <==> NameOccurs(others', n)
    ensures Unmatched(xs, others) == Unmatched(xs, others')
    decreases |xs|
  {
    if xs != [] {
      UnmatchedSeesOnlyNames(xs[1..], others, others');
    }
  }

  /**
   The first tick of a session compares against the empty baseline: every
   listed process is reported started and none ended.
   */
  lemma FirstTick(cur: seq<Proc>)
    ensures Started([], cur) == cur
    ensures Ended([], cur) == []
  {
    UnmatchedAgainstEmpty(cur);
  }

  /** When the new listing is empty, every baseline process is reported ended. */
  lemma AllGone(prev: seq<Proc>)
    ensures Started(prev, []) == []
    ensures Ended(prev, []) == prev
  {
    UnmatchedAgainstEmpty(prev);
  }

  /** A listing compared with itself reports nothing started and nothing ended. */
  lemma NoChange(s: seq<Proc>)
    ensures Started(s, s) == []
    ensures Ended(s, s) == []
  {
    forall i | 0 <= i < |s|
      ensures NameOccurs(s, s[i].name)
    {
    }
    NothingUnmatchedIff(s, s);
  }

  /**
   Both halves of the diff are empty exactly when the two listings have the
   same names, whatever the pids.
   */
  lemma NoChangeIff(prev: seq<Proc>, cur: seq<Proc>)
    ensures Started(prev, cur) == [] && Ended(prev, cur) == []
        <==> forall n :: NameOccurs(prev, n) <==> NameOccurs(cur, n)
  {
    NothingUnmatchedIff(cur, prev);
    NothingUnmatchedIff(prev, cur);
    if Started(prev, cur) == [] && Ended(prev, cur) == [] {
      forall n
        ensures NameOccurs(prev, n) <==> NameOccurs(cur, n)
      {
        if NameOccurs(prev, n) {
          var i :| 0 <= i < |prev| && prev[i].name == n;
          assert NameOccurs(cur, prev[i].name);
        }
        if NameOccurs(cur, n) {
          var i :| 0 <= i < |cur| && cur[i].name == n;
          assert NameOccurs(prev, cur[i].name);
        }
      }
    }
  }

  /**
   The pid never matters for identity: changing the baseline's pids (or anything
   but its set of names) changes nothing in what is reported started, and the
   same holds for the new listing and what is reported ended.
   */
  lemma PidsNeverCompared(prev: seq<Proc>, prev': seq<Proc>, cur: seq<Proc>, cur': seq<Proc>)
    requires forall n :: NameOccurs(prev, n) <==> NameOccurs(prev', n)
    requires forall n :: NameOccurs(cur, n) <==> NameOccurs(cur', n)
    ensures Started(prev, cur) == Started(prev', cur)
    ensures Ended(prev, cur) == Ended(prev, cur')
  {
    UnmatchedSeesOnlyNames(cur, prev, prev');
    UnmatchedSeesOnlyNames(prev, cur, cur');
  }

  /**
   Where each reported name comes from: a started name is in the new listing and
   not in the baseline, an ended name is in the baseline and not in the new
   listing; so no name is reported both started and ended.
   */
  lemma DiffNamesDisjoint(prev: seq<Proc>, cur: seq<Proc>)
    ensures forall i :: 0 <= i < |Started(prev, cur)| ==>
      NameOccurs(cur, Started(prev, cur)[i].name) && !NameOccurs(prev, Started(prev, cur)[i].name)
    ensures forall j :: 0 <= j < |Ended(prev, cur)| ==>
      NameOccurs(prev, Ended(prev, cur)[j].name) && !NameOccurs(cur, Ended(prev, cur)[j].name)
    ensures forall i, j :: 0 <= i < |Started(prev, cur)| && 0 <= j < |Ended(prev, cur)| ==>
      Started(prev, cur)[i].name != Ended(prev, cur)[j].name
  {
    var started, ended := Started(prev, cur), Ended(prev, cur);
    StartedSpec(prev, cur);
    EndedSpec(prev, cur);
    forall i | 0 <= i < |started|
      ensures NameOccurs(cur, started[i].name) && !NameOccurs(prev, started[i].name)
    {
      assert started[i] in started;
      var k :| 0 <= k < |cur| && cur[k] == started[i];
      assert cur[k].name == started[i].name;
    }
    forall j | 0 <= j < |ended|
      ensures NameOccurs(prev, ended[j].name) && !NameOccurs(cur, ended[j].name)
    {
      assert ended[j] in ended;
      var k :| 0 <= k < |prev| && prev[k] == ended[j];
      assert prev[k].name == ended[j].name;
    }
  }

  /** A process restarted under a new pid is not news; a new name is. */
  lemma PidChangeIsNotAStart()
    ensures Started([Proc("a", 1)], [Proc("a", 99), Proc("b", 2)]) == [Proc("b", 2)]
    ensures Ended([Proc("a", 1)], [Proc("a", 99), Proc("b", 2)]) == []
  {
  }

  /** Two records with the same fresh name are both reported started. */
  lemma DuplicatesKept()
    ensures Started([Proc("a", 1)], [Proc("b", 2), Proc("a", 3), Proc("b", 4)]) == [Proc("b", 2), Proc("b", 4)]
  {
  }
}
