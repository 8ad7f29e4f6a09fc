/** The duplicate finder's engine: it files every hashed file under its
    digest in an ordered map, extracts the digests shared by more than one
    file in ascending order, then moves or deletes duplicates or only
    reports them, and renders a numbered report followed by final stats.

    Hashing and directory enumeration are not modelled: the tree the
    directory streams yield is given, each regular file already carrying
    its upper-case hex digest, or None when reading or hashing it threw. */
module Calculation {
  import opened JavaLang
  import opened Ordering
  import opened IO
  import opened Parsing

  // -----------------------------------------------------------------------
  // What the traversal sees.

  /** A path as a directory stream yields it: a regular file with its
      digest (None when reading or hashing threw), or a directory with the
      entries its own stream yielded, in stream order. */
  datatype Entry = File(path: string, digest: Option<string>) | Dir(path: string, children: seq<Entry>)

  /** A file that was read and hashed: its path and its digest. */
  datatype Hashed = Hashed(path: string, digest: string)

  /** The non-directory entries below `e`, depth first in stream order, as
      `calcRec` reaches them. */
  function Leaves(e: Entry): (r: seq<Entry>)
    ensures forall x :: x in r ==> x.File?
    decreases e
  {
    match e
    case File(_, _) => [e]
    case Dir(_, cs) => LeavesAll(cs)
  }

  function LeavesAll(es: seq<Entry>): (r: seq<Entry>)
    ensures forall x :: x in r ==> x.File?
    decreases es
  {
    if |es| == 0 then []
    else LeavesAll(es[..|es| - 1]) + Leaves(es[|es| - 1])
  }

  /** The children of a directory that are not directories themselves. */
  function FilesAmong(es: seq<Entry>): seq<Entry>
  {
    if |es| == 0 then []
    else FilesAmong(es[..|es| - 1]) + if es[|es| - 1].File? then [es[|es| - 1]] else []
  }

  /** The entries `calc` hashes: the files directly inside the root, and
      nothing when the root is not a directory. */
  function Shallow(e: Entry): seq<Entry>
  {
    if e.Dir? then FilesAmong(e.children) else []
  }

  /** The hash of one visited file, or nothing when its read or hash threw. */
  function HashOf(f: Entry): seq<Hashed>
  {
    if f.File? && f.digest.Some? then [Hashed(f.path, f.digest.value)] else []
  }

  /** What the hashing keeps of a list of visited files. */
  function Hashes(fs: seq<Entry>): seq<Hashed>
  {
    if |fs| == 0 then [] else Hashes(fs[..|fs| - 1]) + HashOf(fs[|fs| - 1])
  }

  /** The hashed files of one scan, in discovery order: the whole tree when
      recursive, only the root's own files otherwise. */
  function Scanned(root: Entry, recursive: bool): seq<Hashed>
  {
    Hashes(if recursive then Leaves(root) else Shallow(root))
  }

  /** `calc` visits exactly the non-directory children of a directory root. */
  lemma {:induction false} FilesAmongMembers(es: seq<Entry>)
    ensures forall x :: x in FilesAmong(es) <==> x in es && x.File?
  {
    if |es| > 0 {
      var init := es[..|es| - 1];
      FilesAmongMembers(init);
      assert es == init + [es[|es| - 1]];
    }
  }

  /** One more child of the directory: its hash, if it is a file. */
  lemma ShallowStep(cs: seq<Entry>, i: nat)
    requires i < |cs|
    ensures var before := Hashes(FilesAmong(cs[..i]));
      Hashes(FilesAmong(cs[..i + 1])) == if cs[i].File? then before + HashOf(cs[i]) else before
  {
    assert cs[..i + 1][..i] == cs[..i];
    if cs[i].File? {
      HashesAppend(FilesAmong(cs[..i]), [cs[i]]);
      assert Hashes([cs[i]]) == HashOf(cs[i]);
    } else {
      assert FilesAmong(cs[..i + 1]) == FilesAmong(cs[..i]) + [];
      assert FilesAmong(cs[..i]) + [] == FilesAmong(cs[..i]);
    }
  }

  /** One more child of the directory: the hashes of everything below it. */
  lemma LeavesStep(cs: seq<Entry>, i: nat)
    requires i < |cs|
    ensures Hashes(LeavesAll(cs[..i + 1])) == Hashes(LeavesAll(cs[..i])) + Hashes(Leaves(cs[i]))
  {
    assert cs[..i + 1][..i] == cs[..i];
    HashesAppend(LeavesAll(cs[..i]), Leaves(cs[i]));
  }

  lemma ShallowMembers(e: Entry)
    ensures forall x :: x in Shallow(e) <==> e.Dir? && x in e.children && x.File?
  {
    if e.Dir? {
      FilesAmongMembers(e.children);
    }
  }

  /** A file contributes its hash exactly when it was read and hashed: a
      failed read contributes nothing. */
  lemma {:induction false} HashesMembers(fs: seq<Entry>)
    ensures forall h :: h in Hashes(fs) <==> File(h.path, Some(h.digest)) in fs
  {
    if |fs| > 0 {
      var init := fs[..|fs| - 1];
      HashesMembers(init);
      assert fs == init + [fs[|fs| - 1]];
    }
  }

  lemma {:induction false} HashesAppend(a: seq<Entry>, b: seq<Entry>)
    ensures Hashes(a + b) == Hashes(a) + Hashes(b)
  {
    if |b| > 0 {
      var n := |b| - 1;
      HashesAppend(a, b[..n]);
      assert (a + b)[..|a + b| - 1] == a + b[..n];
    } else {
      assert a + b == a;
    }
  }

  // -----------------------------------------------------------------------
  // The digest-keyed map.

  /** The list filed under `k`; empty when `k` is not a key. */
  function GroupOf(m: map<string, seq<string>>, k: string): seq<string>
  {
    if k in m then m[k] else []
  }

  /** Filing one hashed file: its path goes to the end of its digest's list,
      or starts a one-element list; no other list changes. */
  function Add(m: map<string, seq<string>>, h: Hashed): (r: map<string, seq<string>>)
    ensures r.Keys == m.Keys + {h.digest}
    ensures forall k :: GroupOf(r, k) == if k == h.digest then GroupOf(m, k) + [h.path] else GroupOf(m, k)
  {
    if h.digest in m then m[h.digest := m[h.digest] + [h.path]] else m[h.digest := [h.path]]
  }

  /** Filing a sequence of hashed files in order. */
  function IndexAll(m: map<string, seq<string>>, hs: seq<Hashed>): map<string, seq<string>>
  {
    if |hs| == 0 then m else Add(IndexAll(m, hs[..|hs| - 1]), hs[|hs| - 1])
  }

  /** The digests that are keys after filing are those that were keys
      before and those of the filed files. */
  lemma {:induction false} IndexKeys(m: map<string, seq<string>>, hs: seq<Hashed>)
    ensures IndexAll(m, hs).Keys == m.Keys + (set h | h in hs :: h.digest)
  {
    if |hs| > 0 {
      var init, last := hs[..|hs| - 1], hs[|hs| - 1];
      IndexKeys(m, init);
      assert hs == init + [last];
      assert (set h | h in hs :: h.digest) == (set h | h in init :: h.digest) + {last.digest};
    }
  }

  /** Filing never leaves an empty list behind. */
  lemma {:induction false} IndexNonEmpty(m: map<string, seq<string>>, hs: seq<Hashed>)
    requires forall k :: k in m ==> |m[k]| > 0
    ensures forall k :: k in IndexAll(m, hs) ==> |IndexAll(m, hs)[k]| > 0
  {
    if |hs| > 0 {
      var init, last := hs[..|hs| - 1], hs[|hs| - 1];
      IndexNonEmpty(m, init);
      var prev := IndexAll(m, init);
      forall k | k in Add(prev, last) ensures |Add(prev, last)[k]| > 0 {
        assert Add(prev, last)[k] == GroupOf(Add(prev, last), k);
        if k != last.digest {
          assert GroupOf(prev, k) == prev[k];
        }
      }
    }
  }

  /** The paths of the hashed files with digest `k`, in order. */
  function PathsWith(hs: seq<Hashed>, k: string): (r: seq<string>)
    ensures forall q :: q in r <==> Hashed(q, k) in hs
  {
    if |hs| == 0 then []
    else
      var init, last := hs[..|hs| - 1], hs[|hs| - 1];
      assert hs == init + [last];
      PathsWith(init, k) + if last.digest == k then [last.path] else []
  }

  lemma IndexAllSnoc(m: map<string, seq<string>>, hs: seq<Hashed>, h: Hashed)
    ensures IndexAll(m, hs + [h]) == Add(IndexAll(m, hs), h)
  {
    assert (hs + [h])[..|hs|] == hs;
  }

  lemma {:induction false} IndexAllAppend(m: map<string, seq<string>>, a: seq<Hashed>, b: seq<Hashed>)
    ensures IndexAll(m, a + b) == IndexAll(IndexAll(m, a), b)
  {
    if |b| > 0 {
      var n := |b| - 1;
      IndexAllAppend(m, a, b[..n]);
      assert (a + b)[..|a + b| - 1] == a + b[..n];
    } else {
      assert a + b == a;
    }
  }

  /** Every hashed file ends up in exactly one list, the one of its digest,
      after what was there before and in discovery order. */
  lemma {:induction false} IndexGroup(m: map<string, seq<string>>, hs: seq<Hashed>, k: string)
    ensures GroupOf(IndexAll(m, hs), k) == GroupOf(m, k) + PathsWith(hs, k)
  {
    if |hs| > 0 {
      IndexGroup(m, hs[..|hs| - 1], k);
    }
  }

  // -----------------------------------------------------------------------
  // Extracting the duplicates.

  /** The keys, in the given order, whose list has more than one path. */
  function DupeKeys(keys: seq<string>, m: map<string, seq<string>>): (r: seq<string>)
    ensures forall k :: k in r <==> k in keys && |GroupOf(m, k)| > 1
  {
    if |keys| == 0 then []
    else
      var init, last := keys[..|keys| - 1], keys[|keys| - 1];
      assert keys == init + [last];
      var d := DupeKeys(init, m);
      if |GroupOf(m, last)| > 1 then d + [last] else d
  }

  /** Filtering keeps the ascending order of the keys. */
  lemma {:induction false} DupeKeysSorted(keys: seq<string>, m: map<string, seq<string>>)
    requires Sorted(keys)
    ensures Sorted(DupeKeys(keys, m))
  {
    if |keys| > 0 {
      var init, last := keys[..|keys| - 1], keys[|keys| - 1];
      assert Sorted(init);
      DupeKeysSorted(init, m);
      var d := DupeKeys(init, m);
      if |GroupOf(m, last)| > 1 {
        forall i | 0 <= i < |d| ensures Less(d[i], last) {
          assert d[i] in init;
          var j :| 0 <= j < |init| && init[j] == d[i];
          assert keys[j] == d[i];
        }
        assert DupeKeys(keys, m) == d + [last];
      }
    }
  }

  /** `getListOfDupes`: the lists of more than one path, key by key. */
  function Dupes(keys: seq<string>, m: map<string, seq<string>>): seq<seq<string>>
  {
    if |keys| == 0 then []
    else
      var d := Dupes(keys[..|keys| - 1], m);
      var g := GroupOf(m, keys[|keys| - 1]);
      if |g| > 1 then d + [g] else d
  }

  /** The i-th duplicate set is the list of the i-th duplicated key, and has
      more than one member. */
  lemma {:induction false} DupesAreGroups(keys: seq<string>, m: map<string, seq<string>>)
    ensures |Dupes(keys, m)| == |DupeKeys(keys, m)|
    ensures forall i :: 0 <= i < |Dupes(keys, m)| ==>
      Dupes(keys, m)[i] == GroupOf(m, DupeKeys(keys, m)[i]) && |Dupes(keys, m)[i]| > 1
  {
    if |keys| > 0 {
      DupesAreGroups(keys[..|keys| - 1], m);
    }
  }

  /** When `keys` enumerates the map's keys in ascending order, there are as
      many duplicate sets as keys with more than one path. */
  lemma DupesCount(keys: seq<string>, m: map<string, seq<string>>)
    requires Sorted(keys) && forall k :: k in keys <==> k in m
    ensures |Dupes(keys, m)| == |set k | k in m && |m[k]| > 1|
  {
    var dk := DupeKeys(keys, m);
    DupesAreGroups(keys, m);
    DupeKeysSorted(keys, m);
    SortedCard(dk);
    assert (set x | x in dk) == (set k | k in m && |m[k]| > 1);
  }

  // -----------------------------------------------------------------------
  // Resolving the duplicates.

  /** All paths of all sets, in iteration order. */
  function Flatten(sets: seq<seq<string>>): seq<string>
  {
    if |sets| == 0 then [] else Flatten(sets[..|sets| - 1]) + sets[|sets| - 1]
  }

  /** The members of one set that delete mode removes: all but the last. */
  function Doomed(s: seq<string>): seq<string>
  {
    if |s| == 0 then [] else s[..|s| - 1]
  }

  /** The delete attempts of all sets, in iteration order. */
  function AllButLast(sets: seq<seq<string>>): seq<string>
  {
    if |sets| == 0 then [] else AllButLast(sets[..|sets| - 1]) + Doomed(sets[|sets| - 1])
  }

  /** Delete mode attempts one file fewer per set than move mode: with sets
      of at least one member, |AllButLast| is the sum of (size - 1). */
  lemma {:induction false} AllButLastSize(sets: seq<seq<string>>)
    requires forall i :: 0 <= i < |sets| ==> |sets[i]| > 0
    ensures |AllButLast(sets)| + |sets| == |Flatten(sets)|
  {
    if |sets| > 0 {
      AllButLastSize(sets[..|sets| - 1]);
    }
  }

  /** No path occurs twice. */
  predicate NoRepeats(s: seq<string>)
  {
    forall i, j :: 0 <= i < j < |s| ==> s[i] != s[j]
  }

  lemma NoRepeatsSplit(a: seq<string>, b: seq<string>)
    requires NoRepeats(a + b)
    ensures NoRepeats(a) && NoRepeats(b) && forall x :: x in a ==> x !in b
  {
    forall i, j | 0 <= i < j < |b| ensures b[i] != b[j] {
      assert b[i] == (a + b)[|a| + i] && b[j] == (a + b)[|a| + j];
    }
    forall x | x in a ensures x !in b {
      var i :| 0 <= i < |a| && a[i] == x;
      assert (a + b)[i] == x;
      forall j | 0 <= j < |b| ensures b[j] != x {
        assert (a + b)[|a| + j] == b[j];
      }
    }
    forall i, j | 0 <= i < j < |a| ensures a[i] != a[j] {
      assert a[i] == (a + b)[i] && a[j] == (a + b)[j];
    }
  }

  lemma {:induction false} AllButLastWithin(sets: seq<seq<string>>)
    ensures forall x :: x in AllButLast(sets) ==> x in Flatten(sets)
  {
    if |sets| > 0 {
      AllButLastWithin(sets[..|sets| - 1]);
    }
  }

  /** Delete mode never attempts the last member of a set, so long as no
      path occurs in two places. */
  lemma {:induction false} SurvivorNotAttempted(sets: seq<seq<string>>, i: nat)
    requires NoRepeats(Flatten(sets))
    requires i < |sets| && |sets[i]| > 0
    ensures sets[i][|sets[i]| - 1] !in AllButLast(sets)
  {
    var n := |sets| - 1;
    var init, s := sets[..n], sets[n];
    var x := sets[i][|sets[i]| - 1];
    NoRepeatsSplit(Flatten(init), s);
    AllButLastWithin(init);
    if i == n {
      assert x !in Flatten(init);
      assert x !in Doomed(s) by {
        forall j | 0 <= j < |s| - 1 ensures s[j] != x {
        }
      }
    } else {
      SurvivorNotAttempted(init, i);
      assert x in Flatten(init) by {
        FlattenHas(init, i);
      }
      assert x !in s;
      assert x !in Doomed(s);
    }
  }

  lemma {:induction false} FlattenHas(sets: seq<seq<string>>, i: nat)
    requires i < |sets|
    ensures forall x :: x in sets[i] ==> x in Flatten(sets)
  {
    if i < |sets| - 1 {
      FlattenHas(sets[..|sets| - 1], i);
    }
  }

  /** One call of `moveFile` in the move loop: the rename counter is reset
      to 0 first, then the file is moved (or the call throws). */
  function Attempt(dest: string, sep: string, refuses: (string, string) -> bool)
    : (Disk, string) -> (Disk, Outcome<bool>)
  {
    (d: Disk, item: string) => Move(d.(appendNum := 0), item, dest, sep, refuses)
  }

  /** The move loop over `items`, each one tried with `attempt`; an
      unchecked exception out of an attempt ends the loop (and `run`). The
      result is the disk, the number of attempts that returned true and
      whether the loop was aborted. */
  function MoveAll(d: Disk, items: seq<string>, attempt: (Disk, string) -> (Disk, Outcome<bool>)): (Disk, nat, bool)
  {
    if |items| == 0 then (d, 0, false)
    else MoveNext(MoveAll(d, items[..|items| - 1], attempt), items[|items| - 1], attempt)
  }

  /** One iteration of the move loop on (disk, successes, aborted). */
  function MoveNext(acc: (Disk, nat, bool), item: string,
                    attempt: (Disk, string) -> (Disk, Outcome<bool>)): (Disk, nat, bool)
  {
    var (d1, n, aborted) := acc;
    if aborted then acc
    else
      var (d2, out) := attempt(d1, item);
      match out
      case OutOfBounds => (d2, n, true)
      case Normal(ok) => (d2, if ok then n + 1 else n, false)
  }

  /** The count already made does not influence an iteration. */
  lemma MoveNextShift(acc: (Disk, nat, bool), k: nat, item: string,
                      attempt: (Disk, string) -> (Disk, Outcome<bool>))
    ensures var r := MoveNext(acc, item, attempt);
      MoveNext((acc.0, k + acc.1, acc.2), item, attempt) == (r.0, k + r.1, r.2)
  {
  }

  /** Once aborted, later items are never attempted. */
  lemma {:induction false} MoveAllAborted(d: Disk, a: seq<string>, b: seq<string>,
                                          attempt: (Disk, string) -> (Disk, Outcome<bool>))
    requires MoveAll(d, a, attempt).2
    ensures MoveAll(d, a + b, attempt) == MoveAll(d, a, attempt)
  {
    if |b| > 0 {
      var n := |b| - 1;
      MoveAllAborted(d, a, b[..n], attempt);
      assert (a + b)[..|a + b| - 1] == a + b[..n];
    } else {
      assert a + b == a;
    }
  }

  /** Moving `a` then `b` is moving `a`, then, unless that aborted, moving
      `b` from where `a` left the disk, the counts adding up. */
  lemma {:induction false} MoveAllAppend(d: Disk, a: seq<string>, b: seq<string>,
                                         attempt: (Disk, string) -> (Disk, Outcome<bool>))
    requires !MoveAll(d, a, attempt).2
    ensures var ma := MoveAll(d, a, attempt);
      var mb := MoveAll(ma.0, b, attempt);
      MoveAll(d, a + b, attempt) == (mb.0, ma.1 + mb.1, mb.2)
  {
    if |b| > 0 {
      var n := |b| - 1;
      MoveAllAppend(d, a, b[..n], attempt);
      assert (a + b)[..|a + b| - 1] == a + b[..n];
      var ma := MoveAll(d, a, attempt);
      MoveNextShift(MoveAll(ma.0, b[..n], attempt), ma.1, b[n], attempt);
    } else {
      assert a + b == a;
    }
  }

  /** One iteration of the move loop: an attempt that completes counts
      when it returned true, one that throws aborts; an aborted loop
      attempts nothing more. */
  lemma MoveNextCases(acc: (Disk, nat, bool), item: string,
                      attempt: (Disk, string) -> (Disk, Outcome<bool>))
    ensures var mv := attempt(acc.0, item);
      MoveNext(acc, item, attempt) ==
        if acc.2 then acc
        else if mv.1.OutOfBounds? then (mv.0, acc.1, true)
        else (mv.0, if mv.1.value then acc.1 + 1 else acc.1, false)
  {
  }

  /** What one attempt of the move loop keeps: the number of paths, every
      path but the attempted one, and a counter of 0 or 1. */
  ghost predicate KeepsFiles(attempt: (Disk, string) -> (Disk, Outcome<bool>))
  {
    forall d: Disk, item: string :: var r := attempt(d, item);
      |r.0.paths| == |d.paths| && d.paths - {item} <= r.0.paths &&
      (r.0.appendNum == 0 || r.0.appendNum == 1)
  }

  /** `moveFile` after the reset keeps the files and leaves the counter at 0
      or 1. */
  lemma AttemptKeepsFiles(dest: string, sep: string, refuses: (string, string) -> bool)
    ensures KeepsFiles(Attempt(dest, sep, refuses))
  {
    forall d: Disk, item: string
      ensures var r := Attempt(dest, sep, refuses)(d, item);
        |r.0.paths| == |d.paths| && d.paths - {item} <= r.0.paths &&
        (r.0.appendNum == 0 || r.0.appendNum == 1)
    {
      var r := Move(d.(appendNum := 0), item, dest, sep, refuses);
      assert Increment(0) == 1;
    }
  }

  /** The move loop over any attempt that keeps the files. */
  lemma {:induction false} MoveAllKeeps(d: Disk, items: seq<string>,
                                        attempt: (Disk, string) -> (Disk, Outcome<bool>))
    requires KeepsFiles(attempt)
    ensures var r := MoveAll(d, items, attempt);
      r.1 <= |items| && |r.0.paths| == |d.paths| &&
      d.paths - (set x | x in items) <= r.0.paths &&
      (|items| == 0 ==> r == (d, 0, false)) &&
      (|items| > 0 ==> r.0.appendNum == 0 || r.0.appendNum == 1)
  {
    if |items| > 0 {
      var init, last := items[..|items| - 1], items[|items| - 1];
      MoveAllKeeps(d, init, attempt);
      var acc := MoveAll(d, init, attempt);
      MoveNextCases(acc, last, attempt);
      assert (set x | x in items) == (set x | x in init) + {last} by {
        assert items == init + [last];
      }
    }
  }

  /** Moving never destroys or duplicates a file: the number of paths is
      unchanged and only attempted files can leave their path. At most one
      success per attempt, and the rename counter ends at 0 or 1 because it
      is reset before every attempt. */
  lemma MoveAllBounds(d: Disk, items: seq<string>, dest: string, sep: string,
                      refuses: (string, string) -> bool)
    ensures var r := MoveAll(d, items, Attempt(dest, sep, refuses));
      r.1 <= |items| && |r.0.paths| == |d.paths| &&
      d.paths - (set x | x in items) <= r.0.paths &&
      (|items| == 0 ==> r == (d, 0, false)) &&
      (|items| > 0 ==> r.0.appendNum == 0 || r.0.appendNum == 1)
  {
    AttemptKeepsFiles(dest, sep, refuses);
    MoveAllKeeps(d, items, Attempt(dest, sep, refuses));
  }

  /** The delete loop: the new set of paths and the number of `true`
      returns. A file that was already gone still counts as deleted. */
  function DeleteAll(paths: set<string>, items: seq<string>, refuses: string -> bool): (r: (set<string>, nat))
    ensures r.1 <= |items|
    ensures r.0 <= paths
    ensures paths - (set x | x in items) <= r.0
    ensures (forall x :: x in items ==> !refuses(x)) ==> r == (paths - (set x | x in items), |items|)
  {
    if |items| == 0 then
      assert paths - (set x | x in items) == paths;
      (paths, 0)
    else
      var init, last := items[..|items| - 1], items[|items| - 1];
      assert items == init + [last];
      var (ps, n) := DeleteAll(paths, init, refuses);
      var (ps2, ok) := Delete(ps, last, refuses);
      assert (set x | x in items) == (set x | x in init) + {last};
      assert (forall x :: x in items ==> !refuses(x)) ==> forall x :: x in init ==> !refuses(x) by {
        assert forall x :: x in init ==> x in items;
      }
      assert (forall x :: x in items ==> !refuses(x)) ==>
        ok && ps2 == ps - {last} && ps2 == paths - (set x | x in items);
      (ps2, if ok then n + 1 else n)
  }

  lemma {:induction false} DeleteAllAppend(paths: set<string>, a: seq<string>, b: seq<string>, refuses: string -> bool)
    ensures var da := DeleteAll(paths, a, refuses);
      var db := DeleteAll(da.0, b, refuses);
      DeleteAll(paths, a + b, refuses) == (db.0, da.1 + db.1)
  {
    if |b| > 0 {
      var n := |b| - 1;
      DeleteAllAppend(paths, a, b[..n], refuses);
      assert (a + b)[..|a + b| - 1] == a + b[..n];
    } else {
      assert a + b == a;
    }
  }

  /** Delete mode removes no survivor: when no path is repeated, the last
      member of every set that existed before still exists afterwards. */
  lemma SurvivorKept(paths: set<string>, sets: seq<seq<string>>, refuses: string -> bool, i: nat)
    requires NoRepeats(Flatten(sets))
    requires i < |sets| && |sets[i]| > 0 && sets[i][|sets[i]| - 1] in paths
    ensures sets[i][|sets[i]| - 1] in DeleteAll(paths, AllButLast(sets), refuses).0
  {
    SurvivorNotAttempted(sets, i);
  }

  // -----------------------------------------------------------------------
  // The report.

  const Separator := "==========="

  /** One report line: the position in the set, a dot, a tab, the entry. */
  function Line(k: nat, item: string, eol: string): string
  {
    NatToDecimal(k) + ".\t" + item + eol
  }

  /** The numbered lines of one set, counting from 1. */
  function Lines(s: seq<string>, eol: string): string
  {
    if |s| == 0 then "" else Lines(s[..|s| - 1], eol) + Line(|s|, s[|s| - 1], eol)
  }

  /** One set's lines and the separator line. */
  function Block(s: seq<string>, eol: string): string
  {
    Lines(s, eol) + Separator + eol
  }

  /** `outputDupes`: the blocks of all sets, in order. */
  function Report(sets: seq<seq<string>>, eol: string): string
  {
    if |sets| == 0 then "" else Report(sets[..|sets| - 1], eol) + Block(sets[|sets| - 1], eol)
  }

  /** The entries of a set as delete mode prints them. */
  function Marked(s: seq<string>): seq<string>
  {
    seq(|s|, i requires 0 <= i < |s| => if i != |s| - 1 then "*" + s[i] else s[i])
  }

  function MarkAll(sets: seq<seq<string>>): seq<seq<string>>
  {
    seq(|sets|, i requires 0 <= i < |sets| => Marked(sets[i]))
  }

  /** An asterisk marks exactly the entries delete mode attempted (all but
      the last); the other entries are printed as they are. */
  lemma MarkedDoomed(s: seq<string>)
    ensures |Marked(s)| == |s|
    ensures forall i :: 0 <= i < |s| ==> (Marked(s)[i] == "*" + s[i] <==> i < |Doomed(s)|)
    ensures forall i :: 0 <= i < |s| ==> Marked(s)[i] == "*" + s[i] || Marked(s)[i] == s[i]
  {
    forall i | 0 <= i < |s| ensures Marked(s)[i] != s[i] || Marked(s)[i] != "*" + s[i] {
      assert |"*" + s[i]| != |s[i]|;
    }
  }

  /** The marked line of the source is the plain line of the marked entry. */
  lemma MarkedLine(k: nat, item: string, eol: string)
    ensures NatToDecimal(k) + ".\t*" + item + eol == Line(k, "*" + item, eol)
  {
    assert ".\t*" == ".\t" + "*";
  }

  lemma AppendAssoc(a: string, b: string, c: string)
    ensures a + (b + c) == a + b + c
  {
  }

  lemma LinesStep(s: seq<string>, j: nat, eol: string)
    requires j < |s|
    ensures Lines(s[..j + 1], eol) == Lines(s[..j], eol) + Line(j + 1, s[j], eol)
  {
    assert s[..j + 1][..j] == s[..j];
  }

  /** Each set adds its own block after the blocks before it. */
  lemma {:induction false} ReportConcat(a: seq<seq<string>>, b: seq<seq<string>>, eol: string)
    ensures Report(a + b, eol) == Report(a, eol) + Report(b, eol)
  {
    if |b| > 0 {
      var n := |b| - 1;
      ReportConcat(a, b[..n], eol);
      assert (a + b)[..|a + b| - 1] == a + b[..n];
      assert (a + b)[|a + b| - 1] == b[n];
      calc {
        Report(a + b, eol);
        Report(a + b[..n], eol) + Block(b[n], eol);
        (Report(a, eol) + Report(b[..n], eol)) + Block(b[n], eol);
        Report(a, eol) + (Report(b[..n], eol) + Block(b[n], eol));
        Report(a, eol) + Report(b, eol);
      }
    } else {
      assert a + b == a;
    }
  }

  /** The report is empty exactly when there are no sets: every set at
      least contributes its separator line. */
  lemma ReportEmpty(sets: seq<seq<string>>, eol: string)
    ensures Report(sets, eol) == "" <==> |sets| == 0
  {
    if |sets| > 0 {
      assert |Block(sets[|sets| - 1], eol)| >= |Separator| > 0;
    }
  }

  /** The final-stats block, present only when duplicates were found, with
      the moved or deleted count of the active mode. */
  function Stats(dupes: nat, modes: Modes, moved: nat, deleted: nat, dest: string, eol: string): string
  {
    if dupes == 0 then ""
    else
      "Final stats: " + NatToDecimal(dupes) + " sets of duplicate files found." + eol +
      if modes.moveMode then NatToDecimal(moved) + " files moved to " + dest + eol
      else if modes.delMode then NatToDecimal(deleted) + " files deleted." + eol
      else ""
  }

  /** The resolution phase of `run` on the listed sets: the disk it leaves,
      the move and delete counts, whether `moveFile` threw, and the report
      text appended before the stats. */
  function Resolution(list: seq<seq<string>>, modes: Modes, d: Disk, dest: string, sep: string, eol: string,
                      refusesMove: (string, string) -> bool, refusesDelete: string -> bool)
    : (Disk, nat, nat, bool, string)
  {
    if modes.moveMode then
      var mv := MoveAll(d, Flatten(list), Attempt(dest, sep, refusesMove));
      (mv.0, mv.1, 0, mv.2, if mv.2 then "" else Report(list, eol))
    else if modes.delMode then
      var dl := DeleteAll(d.paths, AllButLast(list), refusesDelete);
      (Disk(dl.0, d.appendNum), 0, dl.1, false, Report(MarkAll(list), eol))
    else
      (d, 0, 0, false, Report(list, eol))
  }

  /** What each mode may do to the files: moving keeps their number and
      counts at most one success per member; deleting only removes files,
      at most one per member but the last of each set, and never the last
      member of a set; plain reporting changes nothing. Only a move can
      abort. */
  lemma ResolutionEffects(list: seq<seq<string>>, modes: Modes, d: Disk, dest: string, sep: string, eol: string,
                          refusesMove: (string, string) -> bool, refusesDelete: string -> bool)
    ensures var r := Resolution(list, modes, d, dest, sep, eol, refusesMove, refusesDelete);
      (modes.moveMode ==> r.1 <= |Flatten(list)| && r.2 == 0 && |r.0.paths| == |d.paths|) &&
      (!modes.moveMode ==> r.1 == 0 && !r.3 && r.0.appendNum == d.appendNum && r.0.paths <= d.paths) &&
      (!modes.moveMode && modes.delMode ==> r.2 <= |AllButLast(list)|) &&
      (!modes.moveMode && !modes.delMode ==> r.0 == d && r.2 == 0) &&
      (!modes.moveMode && NoRepeats(Flatten(list)) ==>
         forall i :: 0 <= i < |list| && |list[i]| > 0 && list[i][|list[i]| - 1] in d.paths ==>
           list[i][|list[i]| - 1] in r.0.paths)
  {
    if modes.moveMode {
      MoveAllBounds(d, Flatten(list), dest, sep, refusesMove);
    } else if modes.delMode && NoRepeats(Flatten(list)) {
      forall i | 0 <= i < |list| && |list[i]| > 0 && list[i][|list[i]| - 1] in d.paths
        ensures list[i][|list[i]| - 1] in DeleteAll(d.paths, AllButLast(list), refusesDelete).0
      {
        SurvivorKept(d.paths, list, refusesDelete, i);
      }
    }
  }

  // -----------------------------------------------------------------------
  // The engine object.

  class Calculate {
    var isFinished: bool
    var groups: map<string, seq<string>>
    /** The TreeMap's keys in ascending order. */
    var keys: seq<string>
    var dupeCounter: nat
    var delCounter: nat
    var moveCounter: nat
    const p: ArgsParser
    const root: Entry
    var output: string

    /** The map's invariant: `keys` enumerates its keys in ascending order,
        and every list is non-empty. */
    ghost predicate Valid()
      reads this
    {
      Sorted(keys) && (forall k :: k in keys <==> k in groups) &&
      forall k :: k in groups ==> |groups[k]| > 0
    }

    /** `new Calculate(parser)`; `root` is the tree under the source directory. */
    constructor(parser: ArgsParser, root: Entry)
      requires root.path == parser.srcDir
      ensures p == parser && this.root == root
      ensures groups == map[] && keys == [] && output == "" && !isFinished
      ensures dupeCounter == 0 && delCounter == 0 && moveCounter == 0
      ensures Valid()
    {
      p := parser;
      dupeCounter, delCounter, moveCounter := 0, 0, 0;
      isFinished := false;
      groups, keys := map[], [];
      output := "";
      this.root := root;
    }

    /** Filing one hashed file into the map. */
    method Insert(h: Hashed)
      requires Valid()
      modifies this`groups, this`keys
      ensures Valid() && groups == Add(old(groups), h)
    {
      if h.digest in groups {
        groups := groups[h.digest := groups[h.digest] + [h.path]];
      } else {
        keys := InsertSorted(keys, h.digest);
        groups := groups[h.digest := [h.path]];
      }
    }

    /** The hashing block shared by `calc` and `calcRec`: a file that was
        read and hashed is filed under its digest, a failed one is skipped. */
    method HashFile(f: Entry)
      requires Valid() && f.File?
      modifies this`groups, this`keys
      ensures Valid() && groups == IndexAll(old(groups), HashOf(f))
    {
      if f.digest.Some? {
        var h := Hashed(f.path, f.digest.value);
        IndexAllSnoc(groups, [], h);
        Insert(h);
      }
    }

    /** `calc(path)`: hashes the files directly inside a directory. */
    method Calc(e: Entry)
      requires Valid()
      modifies this`groups, this`keys
      ensures Valid() && groups == IndexAll(old(groups), Hashes(Shallow(e)))
    {
      if e.Dir? {
        var i := 0;
        while i < |e.children|
          invariant 0 <= i <= |e.children|
          invariant Valid() && groups == IndexAll(old(groups), Hashes(FilesAmong(e.children[..i])))
        {
          var file := e.children[i];
          ShallowStep(e.children, i);
          if !file.Dir? {
            IndexAllAppend(old(groups), Hashes(FilesAmong(e.children[..i])), HashOf(file));
            HashFile(file);
          }
          i := i + 1;
        }
        assert e.children[..i] == e.children;
      }
    }

    /** `calcRec(path)`: descends into every directory and hashes every file. */
    method CalcRec(e: Entry)
      requires Valid()
      modifies this`groups, this`keys
      ensures Valid() && groups == IndexAll(old(groups), Hashes(Leaves(e)))
      decreases e
    {
      if e.Dir? {
        var i := 0;
        while i < |e.children|
          invariant 0 <= i <= |e.children|
          invariant Valid() && groups == IndexAll(old(groups), Hashes(LeavesAll(e.children[..i])))
        {
          var file := e.children[i];
          LeavesStep(e.children, i);
          IndexAllAppend(old(groups), Hashes(LeavesAll(e.children[..i])), Hashes(Leaves(file)));
          CalcRec(file);
          i := i + 1;
        }
        assert e.children[..i] == e.children;
      } else {
        HashFile(e);
        assert Hashes(Leaves(e)) == HashOf(e) by {
          assert Leaves(e) == [e] && [e][..0] == [];
        }
      }
    }

    /** `getListOfDupes()`: the lists with more than one path in ascending
        key order; `dupeCounter` grows by their number. */
    method GetListOfDupes() returns (list: seq<seq<string>>)
      requires Valid()
      modifies this`dupeCounter
      ensures list == Dupes(keys, groups)
      ensures dupeCounter == old(dupeCounter) + |list|
    {
      list := [];
      var i := 0;
      while i < |keys|
        invariant 0 <= i <= |keys|
        invariant list == Dupes(keys[..i], groups)
        invariant dupeCounter == old(dupeCounter) + |list|
      {
        var key := keys[i];
        assert keys[..i + 1][..i] == keys[..i];
        if |groups[key]| > 1 {
          dupeCounter := dupeCounter + 1;
          list := list + [groups[key]];
        }
        i := i + 1;
      }
      assert keys[..i] == keys;
    }

    /** The move branch of `run`: every member of every set, the counter
        reset before each attempt. Returns whether `moveFile` threw. */
    method MoveDupes(list: seq<seq<string>>, fs: FileSystem, dest: string, sep: string)
      returns (aborted: bool)
      modifies fs, this`moveCounter
      ensures var mv := MoveAll(old(fs.State()), Flatten(list), Attempt(dest, sep, fs.refusesMove));
        fs.State() == mv.0 && moveCounter == old(moveCounter) + mv.1 && aborted == mv.2
    {
      ghost var disk, attempt := fs.State(), Attempt(dest, sep, fs.refusesMove);
      var i := 0;
      while i < |list|
        invariant 0 <= i <= |list|
        invariant var mv := MoveAll(disk, Flatten(list[..i]), attempt);
          fs.State() == mv.0 && moveCounter == old(moveCounter) + mv.1 && !mv.2
      {
        assert list[..i + 1][..i] == list[..i];
        assert Flatten(list[..i + 1]) == Flatten(list[..i]) + list[i];
        MoveAllAppend(disk, Flatten(list[..i]), list[i], attempt);
        aborted := MoveSet(list[i], fs, dest, sep);
        if aborted {
          FlattenConcat(list[..i + 1], list[i + 1..]);
          assert list[..i + 1] + list[i + 1..] == list;
          MoveAllAborted(disk, Flatten(list[..i + 1]), Flatten(list[i + 1..]), attempt);
          return;
        }
        i := i + 1;
      }
      assert list[..i] == list;
      aborted := false;
    }

    /** The body of the inner move loop: `IO.appendNum = 0` and then
        `IO.moveFile(item, dest)`. */
    method MoveOne(item: string, fs: FileSystem, dest: string, sep: string) returns (r: Outcome<bool>)
      modifies fs
      ensures (fs.State(), r) == Attempt(dest, sep, fs.refusesMove)(old(fs.State()), item)
    {
      fs.appendNum := 0;
      r := fs.MoveFile(item, dest, sep);
    }

    /** The inner loop of the move branch, over one set. */
    method MoveSet(subList: seq<string>, fs: FileSystem, dest: string, sep: string)
      returns (aborted: bool)
      modifies fs, this`moveCounter
      ensures var mv := MoveAll(old(fs.State()), subList, Attempt(dest, sep, fs.refusesMove));
        fs.State() == mv.0 && moveCounter == old(moveCounter) + mv.1 && aborted == mv.2
    {
      ghost var disk, attempt := fs.State(), Attempt(dest, sep, fs.refusesMove);
      var j := 0;
      while j < |subList|
        invariant 0 <= j <= |subList|
        invariant var mv := MoveAll(disk, subList[..j], attempt);
          fs.State() == mv.0 && moveCounter == old(moveCounter) + mv.1 && !mv.2
      {
        MoveAllAppend(disk, subList[..j], [subList[j]], attempt);
        assert subList[..j] + [subList[j]] == subList[..j + 1];
        aborted := MoveCounted(subList[j], fs, dest, sep, attempt);
        if aborted {
          assert subList[..j + 1] + subList[j + 1..] == subList;
          MoveAllAborted(disk, subList[..j + 1], subList[j + 1..], attempt);
          return;
        }
        j := j + 1;
      }
      assert subList[..j] == subList;
      aborted := false;
    }

    /** One pass of the inner move loop: `if (IO.moveFile(item, dest))
        moveCounter++;` after the reset. */
    method MoveCounted(item: string, fs: FileSystem, dest: string, sep: string,
                       ghost attempt: (Disk, string) -> (Disk, Outcome<bool>))
      returns (aborted: bool)
      requires attempt == Attempt(dest, sep, fs.refusesMove)
      modifies fs, this`moveCounter
      ensures var mv := MoveAll(old(fs.State()), [item], attempt);
        fs.State() == mv.0 && moveCounter == old(moveCounter) + mv.1 && aborted == mv.2
    {
      assert [item][..0] == [];
      MoveNextCases((fs.State(), 0, false), item, attempt);
      var r := MoveOne(item, fs, dest, sep);
      aborted := r.OutOfBounds?;
      if !aborted && r.value {
        moveCounter := moveCounter + 1;
      }
    }

    /** The delete branch of `run`: all but the last member of every set;
        `delCounter` counts the `true` returns. */
    method DeleteDupes(list: seq<seq<string>>, fs: FileSystem)
      modifies fs`paths, this`delCounter
      ensures var dl := DeleteAll(old(fs.paths), AllButLast(list), fs.refusesDelete);
        fs.paths == dl.0 && delCounter == old(delCounter) + dl.1
    {
      var i := 0;
      while i < |list|
        invariant 0 <= i <= |list|
        invariant var dl := DeleteAll(old(fs.paths), AllButLast(list[..i]), fs.refusesDelete);
          fs.paths == dl.0 && delCounter == old(delCounter) + dl.1
      {
        assert list[..i + 1][..i] == list[..i];
        DeleteAllAppend(old(fs.paths), AllButLast(list[..i]), Doomed(list[i]), fs.refusesDelete);
        DeleteSet(list[i], fs);
        i := i + 1;
      }
      assert list[..i] == list;
    }

    /** The inner loop of the delete branch: indices 0 to size - 2. */
    method DeleteSet(subList: seq<string>, fs: FileSystem)
      modifies fs`paths, this`delCounter
      ensures var dl := DeleteAll(old(fs.paths), Doomed(subList), fs.refusesDelete);
        fs.paths == dl.0 && delCounter == old(delCounter) + dl.1
    {
      var i := 0;
      while i < |subList| - 1
        invariant 0 <= i <= |Doomed(subList)|
        invariant var dl := DeleteAll(old(fs.paths), Doomed(subList)[..i], fs.refusesDelete);
          fs.paths == dl.0 && delCounter == old(delCounter) + dl.1
      {
        assert Doomed(subList)[..i + 1][..i] == Doomed(subList)[..i];
        var ok := fs.DeleteFile(subList[i]);
        if ok {
          delCounter := delCounter + 1;
        }
        i := i + 1;
      }
      assert Doomed(subList)[..i] == Doomed(subList);
    }

    /** `outputDupes(list)`. */
    method OutputDupes(list: seq<seq<string>>, eol: string)
      modifies this`output
      ensures output == old(output) + Report(list, eol)
    {
      var i := 0;
      while i < |list|
        invariant 0 <= i <= |list|
        invariant output == old(output) + Report(list[..i], eol)
      {
        AppendAssoc(old(output), Report(list[..i], eol), Block(list[i], eol));
        AppendBlock(list[i], eol);
        assert list[..i + 1][..i] == list[..i];
        i := i + 1;
      }
      assert list[..i] == list;
    }

    /** One iteration of `outputDupes`' outer loop: the numbered lines of
        one set, then the separator. */
    method AppendBlock(subList: seq<string>, eol: string)
      modifies this`output
      ensures output == old(output) + Block(subList, eol)
    {
      var count := 1;
      var j := 0;
      while j < |subList|
        invariant 0 <= j <= |subList| && count == j + 1
        invariant output == old(output) + Lines(subList[..j], eol)
      {
        LinesStep(subList, j, eol);
        AppendAssoc(old(output), Lines(subList[..j], eol), Line(count, subList[j], eol));
        output := output + (NatToDecimal(count) + ".\t" + subList[j] + eol);
        count := count + 1;
        j := j + 1;
      }
      assert subList[..j] == subList;
      AppendAssoc(old(output), Lines(subList, eol), Separator + eol);
      AppendAssoc(Lines(subList, eol), Separator, eol);
      output := output + (Separator + eol);
    }

    /** `outputDupesMarked(list)`: as `outputDupes`, with an asterisk after
        the tab of every entry but the last. */
    method OutputDupesMarked(list: seq<seq<string>>, eol: string)
      modifies this`output
      ensures output == old(output) + Report(MarkAll(list), eol)
    {
      var i := 0;
      while i < |list|
        invariant 0 <= i <= |list|
        invariant output == old(output) + Report(MarkAll(list)[..i], eol)
      {
        AppendAssoc(old(output), Report(MarkAll(list)[..i], eol), Block(Marked(list[i]), eol));
        AppendMarkedBlock(list[i], eol);
        assert MarkAll(list)[..i + 1][..i] == MarkAll(list)[..i];
        i := i + 1;
      }
      assert MarkAll(list)[..i] == MarkAll(list);
    }

    /** One iteration of `outputDupesMarked`' inner loop: the entry at
        `i`, numbered `count`, with the asterisk unless it is the last. */
    method AppendMarkedEntry(subList: seq<string>, i: nat, count: nat, eol: string)
      requires i < |subList|
      modifies this`output
      ensures output == old(output) + Line(count, Marked(subList)[i], eol)
    {
      if i != |subList| - 1 {
        MarkedLine(count, subList[i], eol);
        output := output + (NatToDecimal(count) + ".\t*" + subList[i] + eol);
      } else {
        output := output + (NatToDecimal(count) + ".\t" + subList[i] + eol);
      }
    }

    /** One iteration of `outputDupesMarked`' outer loop. */
    method AppendMarkedBlock(subList: seq<string>, eol: string)
      modifies this`output
      ensures output == old(output) + Block(Marked(subList), eol)
    {
      ghost var marked := Marked(subList);
      var count := 1;
      var i := 0;
      while i < |subList|
        invariant 0 <= i <= |subList| && count == i + 1
        invariant output == old(output) + Lines(marked[..i], eol)
      {
        LinesStep(marked, i, eol);
        AppendAssoc(old(output), Lines(marked[..i], eol), Line(count, marked[i], eol));
        AppendMarkedEntry(subList, i, count, eol);
        count := count + 1;
        i := i + 1;
      }
      assert marked[..i] == marked;
      AppendAssoc(old(output), Lines(marked, eol), Separator + eol);
      AppendAssoc(Lines(marked, eol), Separator, eol);
      output := output + (Separator + eol);
    }

    /** The first statement of `run`: `calcRec(root)` or `calc(root)`. */
    method Scan()
      requires Valid()
      modifies this`groups, this`keys
      ensures Valid() && groups == IndexAll(old(groups), Scanned(root, p.recMode))
    {
      if p.RecursiveMode() {
        CalcRec(root);
      } else {
        Calc(root);
      }
    }

    /** The resolution dispatch of `run`: move, delete or only report.
        Returns whether a `moveFile` threw out of the move loop. */
    method Resolve(list: seq<seq<string>>, fs: FileSystem, dest: string, sep: string, eol: string)
      returns (aborted: bool)
      modifies fs, this`moveCounter, this`delCounter, this`output
      ensures var r := Resolution(list, p.State().modes, old(fs.State()), dest, sep, eol, fs.refusesMove, fs.refusesDelete);
        fs.State() == r.0 && moveCounter == old(moveCounter) + r.1 && delCounter == old(delCounter) + r.2 &&
        aborted == r.3 && output == old(output) + r.4
    {
      aborted := false;
      if p.MoveMode() {
        aborted := MoveDupes(list, fs, dest, sep);
        if !aborted {
          OutputDupes(list, eol);
        }
      } else if p.DeleteMode() {
        DeleteDupes(list, fs);
        OutputDupesMarked(list, eol);
      } else {
        OutputDupes(list, eol);
      }
    }

    /** The tail of `run` once duplicates were found: the final stats. */
    method AppendStats(dest: string, eol: string)
      requires dupeCounter > 0
      modifies this`output
      ensures output == old(output) + Stats(dupeCounter, p.State().modes, moveCounter, delCounter, dest, eol)
    {
      var head := "Final stats: " + NatToDecimal(dupeCounter) + " sets of duplicate files found." + eol;
      output := output + head;
      if p.MoveMode() {
        var tail := NatToDecimal(moveCounter) + " files moved to " + dest + eol;
        AppendAssoc(old(output), head, tail);
        output := output + tail;
      } else if p.DeleteMode() {
        var tail := NatToDecimal(delCounter) + " files deleted." + eol;
        AppendAssoc(old(output), head, tail);
        output := output + tail;
      } else {
        assert head + "" == head;
      }
    }

    /** The state `run` ends in, given the listed sets, the disk it found
        and the destination directory. */
    ghost predicate Concluded(list: seq<seq<string>>, fs: FileSystem, d: Disk, dest: string, sep: string, eol: string,
                              date: string, saved: Option<(string, string)>)
      reads this, p, fs
    {
      var r := Resolution(list, p.State().modes, d, dest, sep, eol, fs.refusesMove, fs.refusesDelete);
      fs.State() == r.0 && moveCounter == r.1 && delCounter == r.2 && isFinished == !r.3 &&
      output == (if r.3 then "" else r.4 + Stats(|list|, p.State().modes, r.1, r.2, dest, eol)) &&
      saved == if isFinished && dupeCounter > 0 && p.saveMode then Some((p.GetExpFile(sep, date), output)) else None
    }

    /** Everything `run` does once the duplicate sets are listed: resolve
        them, mark the run finished unless `moveFile` threw, append the
        stats and hand the report to `saveFile` when asked to. */
    method Conclude(list: seq<seq<string>>, fs: FileSystem, dest: string, sep: string, eol: string, date: string)
      returns (saved: Option<(string, string)>)
      requires dupeCounter == |list| && delCounter == 0 && moveCounter == 0 && output == "" && !isFinished
      modifies fs, this`moveCounter, this`delCounter, this`output, this`isFinished
      ensures Concluded(list, fs, old(fs.State()), dest, sep, eol, date, saved)
    {
      ghost var modes := p.State().modes;
      var aborted := Resolve(list, fs, dest, sep, eol);
      ghost var r := Resolution(list, modes, old(fs.State()), dest, sep, eol, fs.refusesMove, fs.refusesDelete);
      assert output == r.4 && moveCounter == r.1 && delCounter == r.2;
      if aborted {
        return None;
      }
      isFinished := true;
      if dupeCounter == 0 {
        assert output == r.4 + Stats(|list|, modes, r.1, r.2, dest, eol);
        saved := None;
      } else {
        AppendStats(dest, eol);
        assert p.State().modes == modes;
        assert output == r.4 + Stats(|list|, modes, r.1, r.2, dest, eol);
        if p.SaveMode() {
          saved := Some((p.GetExpFile(sep, date), output));
        } else {
          saved := None;
        }
      }
    }

    /** `run()` on a fresh engine. `dirExists` answers `IO.dirExists`, `sep`
        is the platform's file separator, `eol` its line separator and
        `date` the formatted time. The result is the export file and the
        text `saveFile` is asked to write, when it is asked at all. */
    method Run(fs: FileSystem, dirExists: string -> bool, sep: string, eol: string, date: string)
      returns (saved: Option<(string, string)>)
      requires Valid() && groups == map[]
      requires dupeCounter == 0 && delCounter == 0 && moveCounter == 0 && output == "" && !isFinished
      modifies this, fs
      ensures Valid() && groups == IndexAll(map[], Scanned(root, p.recMode))
      ensures dupeCounter == |Dupes(keys, groups)|
      ensures Concluded(Dupes(keys, groups), fs, old(fs.State()), p.GetDestDir(dirExists), sep, eol, date, saved)
    {
      Scan();
      ghost var scanned, sortedKeys := groups, keys;
      var list := GetListOfDupes();
      var dest := p.GetDestDir(dirExists);
      assert fs.State() == old(fs.State());
      saved := Conclude(list, fs, dest, sep, eol, date);
      assert groups == scanned && keys == sortedKeys && list == Dupes(keys, groups);
    }
  }

  lemma {:induction false} FlattenConcat(a: seq<seq<string>>, b: seq<seq<string>>)
    ensures Flatten(a + b) == Flatten(a) + Flatten(b)
  {
    if |b| > 0 {
      var n := |b| - 1;
      FlattenConcat(a, b[..n]);
      assert (a + b)[..|a + b| - 1] == a + b[..n];
    } else {
      assert a + b == a;
    }
  }
}
