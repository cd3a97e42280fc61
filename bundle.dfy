/**
 * The boot bundle's executables and the missing-inputs exchange of
 * `retrieve_missing_inputs` (actors/lib/instance_setup.rb): which ids are
 * requested, and how the returned entries are merged into the executables
 * in place.
 */
module BootBundle {
  import opened Common

  /** RightScript or Chef recipe. */
  datatype Kind = Script | Recipe

  /**
   * One executable of the bundle. `inputs` holds a script's parameters or a
   * recipe's attributes; `title` is what the cookbook helper `recipe_title`
   * makes of its nickname.
   */
  datatype Executable = Executable(id: int, kind: Kind, ready: bool, inputs: map<string, string>, title: string)

  /** An entry returned by `/booter/get_missing_attributes`. */
  datatype InputEntry = InputEntry(id: int, kind: Kind, inputs: map<string, string>)

  // ---------------------------------------------------------------------
  // The request

  /** The ids of the executables of one kind that are not ready, in bundle order. */
  function NotReadyIds(execs: seq<Executable>, kind: Kind): seq<int>
  {
    if execs == [] then []
    else
      var e := execs[|execs| - 1];
      NotReadyIds(execs[..|execs| - 1], kind) + (if e.kind == kind && !e.ready then [e.id] else [])
  }

  /** The executables that are not ready, in bundle order. */
  function Pending(execs: seq<Executable>): seq<Executable>
  {
    if execs == [] then []
    else
      var e := execs[|execs| - 1];
      Pending(execs[..|execs| - 1]) + (if !e.ready then [e] else [])
  }

  /** The titles of executables, in order. */
  function Titles(execs: seq<Executable>): (r: seq<string>)
    ensures |r| == |execs|
  {
    if execs == [] then [] else Titles(execs[..|execs| - 1]) + [execs[|execs| - 1].title]
  }

  lemma TitlesSnoc(execs: seq<Executable>, e: Executable)
    ensures Titles(execs + [e]) == Titles(execs) + [e.title]
  {
    assert (execs + [e])[..|execs|] == execs;
  }

  /** One title per executable, each at its executable's position. */
  lemma {:induction false} TitlesSpec(execs: seq<Executable>)
    ensures |Titles(execs)| == |execs|
    ensures forall i :: 0 <= i < |execs| ==> Titles(execs)[i] == execs[i].title
    decreases |execs|
  {
    if execs != [] {
      var init := execs[..|execs| - 1];
      TitlesSpec(init);
      forall i | 0 <= i < |init| ensures init[i] == execs[i] { }
    }
  }

  /** The requested ids of a concatenation are the ids of each part, in order. */
  lemma {:induction false} NotReadyIdsAppend(a: seq<Executable>, b: seq<Executable>, kind: Kind)
    ensures NotReadyIds(a + b, kind) == NotReadyIds(a, kind) + NotReadyIds(b, kind)
    decreases |b|
  {
    if b == [] {
      assert a + b == a;
    } else {
      var n := |b| - 1;
      assert (a + b)[..|a + b| - 1] == a + b[..n];
      NotReadyIdsAppend(a, b[..n], kind);
    }
  }

  /** An id is requested exactly when an executable of that kind with that id is not ready. */
  lemma {:induction false} NotReadyIdsSpec(execs: seq<Executable>, kind: Kind, x: int)
    ensures x in NotReadyIds(execs, kind) <==>
      exists i :: 0 <= i < |execs| && execs[i].kind == kind && !execs[i].ready && execs[i].id == x
    decreases |execs|
  {
    if execs != [] {
      var n := |execs| - 1;
      var init := execs[..n];
      var e := execs[n];
      var tail := if e.kind == kind && !e.ready then [e.id] else [];
      assert NotReadyIds(execs, kind) == NotReadyIds(init, kind) + tail;
      NotReadyIdsSpec(init, kind, x);
      if x in NotReadyIds(init, kind) {
        var i :| 0 <= i < n && init[i].kind == kind && !init[i].ready && init[i].id == x;
        assert execs[i] == init[i];
      } else if x !in tail {
        forall i | 0 <= i < |execs| ensures !(execs[i].kind == kind && !execs[i].ready && execs[i].id == x) {
          if i < n {
            assert execs[i] == init[i];
          }
        }
      }
    }
  }

  /** Each pending executable accounts for exactly one requested id, of its own kind. */
  lemma {:induction false} NotReadyIdsCount(execs: seq<Executable>)
    ensures |NotReadyIds(execs, Script)| + |NotReadyIds(execs, Recipe)| == |Pending(execs)|
    decreases |execs|
  {
    if execs != [] {
      NotReadyIdsCount(execs[..|execs| - 1]);
    }
  }

  /** Nothing is pending exactly when every executable is ready. */
  lemma {:induction false} PendingSpec(execs: seq<Executable>)
    ensures Pending(execs) == [] <==> forall i :: 0 <= i < |execs| ==> execs[i].ready
    ensures forall e :: e in Pending(execs) ==> e in execs && !e.ready
    decreases |execs|
  {
    if execs != [] {
      var n := |execs| - 1;
      PendingSpec(execs[..n]);
      if forall i :: 0 <= i < |execs| ==> execs[i].ready {
        assert forall i :: 0 <= i < n ==> execs[..n][i].ready by {
          forall i | 0 <= i < n ensures execs[..n][i].ready { assert execs[..n][i] == execs[i]; }
        }
      }
      if Pending(execs) == [] {
        forall i | 0 <= i < |execs| ensures execs[i].ready {
          if i < n { assert execs[i] == execs[..n][i]; }
        }
      }
    }
  }

  // ---------------------------------------------------------------------
  // The merge

  /** `kind`'s list `detect { |s| s.id == id }`: the first executable of that kind with that id. */
  function FirstWith(execs: seq<Executable>, kind: Kind, id: int): (r: Option<nat>)
    ensures r.Some? ==> r.value < |execs| && execs[r.value].kind == kind && execs[r.value].id == id
    ensures r.Some? ==> forall j :: 0 <= j < r.value ==> !(execs[j].kind == kind && execs[j].id == id)
    ensures r.None? ==> forall j :: 0 <= j < |execs| ==> !(execs[j].kind == kind && execs[j].id == id)
  {
    if execs == [] then None
    else if execs[0].kind == kind && execs[0].id == id then Some(0)
    else match FirstWith(execs[1..], kind, id)
      case None => None
      case Some(i) => Some(i + 1)
  }

  /** Entry `e` lands on executable `i`. */
  predicate Targets(execs: seq<Executable>, e: InputEntry, i: nat)
  {
    FirstWith(execs, e.kind, e.id) == Some(i)
  }

  /** One returned entry: the executable it names becomes ready with the returned inputs. */
  function MergeEntry(execs: seq<Executable>, e: InputEntry): seq<Executable>
  {
    match FirstWith(execs, e.kind, e.id)
    case None => execs
    case Some(i) => execs[i := execs[i].(ready := true, inputs := e.inputs)]
  }

  /** All returned entries, in the order received. */
  function Merge(execs: seq<Executable>, entries: seq<InputEntry>): seq<Executable>
  {
    if entries == [] then execs
    else MergeEntry(Merge(execs, entries[..|entries| - 1]), entries[|entries| - 1])
  }

  /** Same length, and the same id, kind and title at every position. */
  predicate SameShape(a: seq<Executable>, b: seq<Executable>)
  {
    |a| == |b| && forall i :: 0 <= i < |a| ==> a[i].id == b[i].id && a[i].kind == b[i].kind && a[i].title == b[i].title
  }

  /** Lookups by kind and id only see the shape. */
  lemma {:induction false} FirstWithShape(a: seq<Executable>, b: seq<Executable>, kind: Kind, id: int)
    requires SameShape(a, b)
    ensures FirstWith(a, kind, id) == FirstWith(b, kind, id)
    decreases |a|
  {
    if a != [] {
      FirstWithShape(a[1..], b[1..], kind, id);
    }
  }

  /**
   * Merging keeps the bundle's length, order, ids, kinds and titles, and never
   * turns a ready executable back to not ready.
   */
  lemma {:induction false} MergeShape(execs: seq<Executable>, entries: seq<InputEntry>)
    ensures SameShape(execs, Merge(execs, entries))
    ensures forall i :: 0 <= i < |execs| && execs[i].ready ==> Merge(execs, entries)[i].ready
    decreases |entries|
  {
    if entries != [] {
      MergeShape(execs, entries[..|entries| - 1]);
    }
  }

  /**
   * The executable an entry lands on is decided by the original bundle, since
   * merging does not change ids or kinds.
   */
  lemma MergeTargetsStable(execs: seq<Executable>, entries: seq<InputEntry>, e: InputEntry)
    ensures FirstWith(Merge(execs, entries), e.kind, e.id) == FirstWith(execs, e.kind, e.id)
  {
    MergeShape(execs, entries);
    FirstWithShape(Merge(execs, entries), execs, e.kind, e.id);
  }

  /** An executable no entry lands on keeps all its fields; unknown ids change nothing. */
  lemma {:induction false} MergeUntouched(execs: seq<Executable>, entries: seq<InputEntry>, i: nat)
    requires i < |execs|
    requires forall j :: 0 <= j < |entries| ==> !Targets(execs, entries[j], i)
    ensures i < |Merge(execs, entries)| && Merge(execs, entries)[i] == execs[i]
    decreases |entries|
  {
    MergeShape(execs, entries);
    if entries != [] {
      var n := |entries| - 1;
      MergeUntouched(execs, entries[..n], i);
      MergeTargetsStable(execs, entries[..n], entries[n]);
    }
  }

  /**
   * The executable the last entry for it lands on is ready and carries that
   * entry's inputs; its id, kind and title are kept.
   */
  lemma {:induction false} MergeTouched(execs: seq<Executable>, entries: seq<InputEntry>, i: nat, j: nat)
    requires j < |entries| && Targets(execs, entries[j], i)
    requires forall k :: j < k < |entries| ==> !Targets(execs, entries[k], i)
    ensures i < |Merge(execs, entries)|
    ensures Merge(execs, entries)[i] == execs[i].(ready := true, inputs := entries[j].inputs)
    decreases |entries|
  {
    var n := |entries| - 1;
    var pre := Merge(execs, entries[..n]);
    var e := entries[n];
    MergeShape(execs, entries[..n]);
    MergeTargetsStable(execs, entries[..n], e);
    assert Merge(execs, entries) == MergeEntry(pre, e);
    MergeEntryAt(pre, e, i);
    if j < n {
      assert entries[..n][j] == entries[j];
      MergeTouched(execs, entries[..n], i, j);
      assert !Targets(execs, e, i);
    } else {
      assert pre[i].id == execs[i].id && pre[i].kind == execs[i].kind && pre[i].title == execs[i].title;
    }
  }

  /** One entry changes at most the executable it lands on. */
  lemma MergeEntryAt(execs: seq<Executable>, e: InputEntry, i: nat)
    requires i < |execs|
    ensures |MergeEntry(execs, e)| == |execs|
    ensures MergeEntry(execs, e)[i] ==
      if Targets(execs, e, i) then execs[i].(ready := true, inputs := e.inputs) else execs[i]
  {
  }

  /** Executables of one kind carry distinct ids. */
  predicate UniqueIds(execs: seq<Executable>)
  {
    forall i, j :: 0 <= i < j < |execs| && execs[i].kind == execs[j].kind ==> execs[i].id != execs[j].id
  }

  /** A not-ready executable for which an entry with its kind and id comes back is ready afterwards. */
  lemma EntryCompletes(execs: seq<Executable>, entries: seq<InputEntry>, i: nat, j: nat)
    requires UniqueIds(execs) && i < |execs| && j < |entries|
    requires entries[j].kind == execs[i].kind && entries[j].id == execs[i].id
    ensures i < |Merge(execs, entries)| && Merge(execs, entries)[i].ready
  {
    assert Targets(execs, entries[j], i);
    var last := LastTargeting(execs, entries, i, j);
    MergeTouched(execs, entries, i, last);
  }

  /**
   * With distinct ids, an answer that covers every requested id of each kind
   * leaves nothing pending, so the retry loop ends.
   */
  lemma MergeCompletes(execs: seq<Executable>, entries: seq<InputEntry>)
    requires UniqueIds(execs)
    requires forall x :: x in NotReadyIds(execs, Script) ==> exists e :: e in entries && e.kind == Script && e.id == x
    requires forall x :: x in NotReadyIds(execs, Recipe) ==> exists e :: e in entries && e.kind == Recipe && e.id == x
    ensures Pending(Merge(execs, entries)) == []
  {
    var m := Merge(execs, entries);
    MergeShape(execs, entries);
    forall i | 0 <= i < |m| ensures m[i].ready {
      if !execs[i].ready {
        NotReadyIdsSpec(execs, execs[i].kind, execs[i].id);
        var e :| e in entries && e.kind == execs[i].kind && e.id == execs[i].id;
        var j :| 0 <= j < |entries| && entries[j] == e;
        EntryCompletes(execs, entries, i, j);
      }
    }
    PendingSpec(m);
  }

  /** The last entry landing on `i`, given that entry `j` does. */
  lemma {:induction false} LastTargeting(execs: seq<Executable>, entries: seq<InputEntry>, i: nat, j: nat)
    returns (last: nat)
    requires j < |entries| && Targets(execs, entries[j], i)
    ensures j <= last < |entries| && Targets(execs, entries[last], i)
    ensures forall k :: last < k < |entries| ==> !Targets(execs, entries[k], i)
    decreases |entries| - j
  {
    if exists k :: j < k < |entries| && Targets(execs, entries[k], i) {
      var k :| j < k < |entries| && Targets(execs, entries[k], i);
      last := LastTargeting(execs, entries, i, k);
    } else {
      last := j;
    }
  }

  // ---------------------------------------------------------------------
  // The same operations, in place on the bundle's array

  /** The `select`/`map` that builds `scripts_ids` or `recipes_ids`. */
  method NotReadyIdsOf(a: array<Executable>, kind: Kind) returns (ids: seq<int>)
    ensures ids == NotReadyIds(a[..], kind)
  {
    ids := [];
    var i := 0;
    while i < a.Length
      invariant 0 <= i <= a.Length
      invariant ids == NotReadyIds(a[..i], kind)
    {
      assert a[..i + 1][..i] == a[..i];
      if a[i].kind == kind && !a[i].ready {
        ids := ids + [a[i].id];
      }
      i := i + 1;
    }
    assert a[..i] == a[..];
  }

  /** The titles of the pending executables, for the "waiting" audit line. */
  method PendingTitlesOf(a: array<Executable>) returns (titles: seq<string>)
    ensures titles == Titles(Pending(a[..]))
  {
    titles := [];
    var i := 0;
    while i < a.Length
      invariant 0 <= i <= a.Length
      invariant titles == Titles(Pending(a[..i]))
    {
      assert a[..i + 1][..i] == a[..i];
      if !a[i].ready {
        var p := Pending(a[..i]);
        assert Pending(a[..i + 1]) == p + [a[i]];
        TitlesSnoc(p, a[i]);
        titles := titles + [a[i].title];
      } else {
        assert Pending(a[..i]) + [] == Pending(a[..i]);
        assert Pending(a[..i + 1]) == Pending(a[..i]);
      }
      i := i + 1;
    }
    assert a[..i] == a[..];
  }

  /** `executables.any? { |e| !e.ready }`. */
  method AnyNotReady(a: array<Executable>) returns (b: bool)
    ensures b <==> Pending(a[..]) != []
  {
    var i := 0;
    while i < a.Length
      invariant 0 <= i <= a.Length
      invariant forall j :: 0 <= j < i ==> a[j].ready
    {
      if !a[i].ready {
        PendingSpec(a[..]);
        return true;
      }
      i := i + 1;
    }
    PendingSpec(a[..]);
    b := false;
  }

  /** `detect`: the first executable of a kind with a given id. */
  method FindFirst(a: array<Executable>, kind: Kind, id: int) returns (r: Option<nat>)
    ensures r == FirstWith(a[..], kind, id)
  {
    var i := 0;
    while i < a.Length
      invariant 0 <= i <= a.Length
      invariant forall j :: 0 <= j < i ==> !(a[j].kind == kind && a[j].id == id)
    {
      if a[i].kind == kind && a[i].id == id {
        FirstWithIs(a[..], kind, id, i);
        return Some(i);
      }
      i := i + 1;
    }
    FirstWithNone(a[..], kind, id);
    r := None;
  }

  /** `FirstWith` is pinned down by its first match. */
  lemma {:induction false} FirstWithIs(s: seq<Executable>, kind: Kind, id: int, i: nat)
    requires i < |s| && s[i].kind == kind && s[i].id == id
    requires forall j :: 0 <= j < i ==> !(s[j].kind == kind && s[j].id == id)
    ensures FirstWith(s, kind, id) == Some(i)
  {
    var r := FirstWith(s, kind, id);
    assert r.Some?;
  }

  lemma FirstWithNone(s: seq<Executable>, kind: Kind, id: int)
    requires forall j :: 0 <= j < |s| ==> !(s[j].kind == kind && s[j].id == id)
    ensures FirstWith(s, kind, id) == None
  {
  }

  /**
   * The `each` loop over the returned entries: each one marks the executable
   * it names ready and replaces its inputs, in place.
   */
  method MergeInPlace(a: array<Executable>, entries: seq<InputEntry>)
    modifies a
    ensures a[..] == Merge(old(a[..]), entries)
  {
    var i := 0;
    while i < |entries|
      invariant 0 <= i <= |entries|
      invariant a[..] == Merge(old(a[..]), entries[..i])
    {
      var e := entries[i];
      assert entries[..i + 1][..i] == entries[..i];
      var target := FindFirst(a, e.kind, e.id);
      if target.Some? {
        var k := target.value;
        a[k] := a[k].(ready := true, inputs := e.inputs);
      }
      i := i + 1;
    }
    assert entries[..i] == entries;
  }
}
