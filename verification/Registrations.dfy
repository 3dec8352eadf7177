/**
 When a list of registrations goes through: a condition on the registry before the first of them.
 */
module Registrations {
  import opened Wrappers
  import opened Operations
  import opened OperationsSync

  // ---- What a registration writes, seen from the start ----

  /** The operation of the source, or a new one under the given id. */
  function TargetId(reg: Registry, a: Args): string
    requires UniqueSources(reg.ops)
  {
    match Find(reg.ops, a.kind, a.sourceId)
    case Some(id) => id
    case None => a.operationId
  }

  /** The key given, or else the key that the source's operation has. */
  function TargetKey(reg: Registry, a: Args): Option<string>
    requires UniqueSources(reg.ops)
  {
    match Find(reg.ops, a.kind, a.sourceId)
    case Some(id) => OrElse(a.key, reg.ops[id].key)
    case None => a.key
  }

  ghost predicate WrittenBefore(reg: Registry, args: seq<Args>, i: nat, id: string)
    requires UniqueSources(reg.ops) && i <= |args|
  {
    exists j :: 0 <= j < i && TargetId(reg, args[j]) == id
  }

  /** A new source needs an id that is neither in the registry nor used before in the list. */
  ghost predicate IdFree(reg: Registry, args: seq<Args>, i: nat)
    requires UniqueSources(reg.ops) && i < |args|
  {
    Find(reg.ops, args[i].kind, args[i].sourceId).None? ==>
      args[i].operationId !in reg.ops && !WrittenBefore(reg, args, i, args[i].operationId)
  }

  /** The key is not on the other operation, if that is there and the list has not rewritten it. */
  ghost predicate KeyUnused(reg: Registry, args: seq<Args>, i: nat, other: string)
    requires UniqueSources(reg.ops) && i < |args|
  {
    other in reg.ops && other != TargetId(reg, args[i]) && !WrittenBefore(reg, args, i, other) ==>
      reg.ops[other].key != TargetKey(reg, args[i])
  }

  ghost predicate KeyNotRepeated(reg: Registry, args: seq<Args>, i: nat)
    requires UniqueSources(reg.ops) && i < |args|
  {
    forall j :: 0 <= j < i ==> TargetKey(reg, args[j]) != TargetKey(reg, args[i])
  }

  /** A key needs to be on no other operation that the list has not rewritten, and not used before in the list. */
  ghost predicate KeyFree(reg: Registry, args: seq<Args>, i: nat)
    requires UniqueSources(reg.ops) && i < |args|
  {
    TargetKey(reg, args[i]).Some? ==>
      (forall other :: KeyUnused(reg, args, i, other)) && KeyNotRepeated(reg, args, i)
  }

  ghost predicate Registrable(reg: Registry, args: seq<Args>)
    requires UniqueSources(reg.ops)
  {
    && (forall i :: 0 <= i < |args| ==> IdFree(reg, args, i))
    && (forall i :: 0 <= i < |args| ==> KeyFree(reg, args, i))
  }

  // ---- One registration ----

  lemma FirstGoesThrough(reg: Registry, args: seq<Args>)
    requires UniqueSources(reg.ops) && args != []
    ensures Register(reg, args[0]).Ok? <==> IdFree(reg, args, 0) && KeyFree(reg, args, 0)
  {
    hide UniqueSources;
    var (id, op) := Target(reg, args[0]);
    assert id == TargetId(reg, args[0]) && op.key == TargetKey(reg, args[0]);
    if KeyTaken(reg.ops, id, op.key) {
      var other :| other in reg.ops && other != id && reg.ops[other].key == op.key;
      assert !KeyUnused(reg, args, 0, other);
    }
  }

  /** Registering one source leaves the targets of the others. */
  lemma TargetStays(reg: Registry, a: Args, b: Args)
    requires Sound(reg) && Register(reg, a).Ok? && !SameSource(a, b)
    ensures Sound(Register(reg, a).value)
    ensures var reg' := Register(reg, a).value;
      && Find(reg'.ops, b.kind, b.sourceId) == Find(reg.ops, b.kind, b.sourceId)
      && TargetId(reg', b) == TargetId(reg, b) && TargetKey(reg', b) == TargetKey(reg, b)
  {
    hide SoundOps;
    hide SoundLogs;
    hide Mirrored;
    RegisterKeepsSound(reg, a);
    var reg' := Register(reg, a).value;
    match Find(reg.ops, b.kind, b.sourceId)
    case Some(id) => FindIs(reg', id, b);
    case None =>
      match Find(reg'.ops, b.kind, b.sourceId)
      case Some(id) =>
      case None =>
  }

  /** A registration writes its target with its key and nothing else. */
  lemma FirstWrites(reg: Registry, a: Args)
    requires Sound(reg) && Register(reg, a).Ok?
    ensures var ops' := Register(reg, a).value.ops;
      && ops'.Keys == reg.ops.Keys + {TargetId(reg, a)} && ops'[TargetId(reg, a)].key == TargetKey(reg, a)
      && forall id :: id in reg.ops && id != TargetId(reg, a) ==> ops'[id] == reg.ops[id]
  {
  }

  // ---- The rest of a list, seen after its first registration ----

  lemma RestTargets(reg: Registry, args: seq<Args>)
    requires Sound(reg) && args != [] && DistinctSources(args) && Register(reg, args[0]).Ok?
    ensures Sound(Register(reg, args[0]).value)
    ensures var reg' := Register(reg, args[0]).value;
      forall i :: 0 < i < |args| ==>
        && Find(reg'.ops, args[i].kind, args[i].sourceId) == Find(reg.ops, args[i].kind, args[i].sourceId)
        && TargetId(reg', args[i]) == TargetId(reg, args[i]) && TargetKey(reg', args[i]) == TargetKey(reg, args[i])
  {
    hide Register;
    hide TargetId;
    hide TargetKey;
    hide SoundOps;
    hide SoundLogs;
    RegisterKeepsSound(reg, args[0]);
    forall i | 0 < i < |args|
      ensures var reg' := Register(reg, args[0]).value;
        && Find(reg'.ops, args[i].kind, args[i].sourceId) == Find(reg.ops, args[i].kind, args[i].sourceId)
        && TargetId(reg', args[i]) == TargetId(reg, args[i]) && TargetKey(reg', args[i]) == TargetKey(reg, args[i])
    {
      TargetStays(reg, args[0], args[i]);
    }
  }

  lemma RestWrittenBefore(reg: Registry, args: seq<Args>, i: nat, id: string)
    requires Sound(reg) && DistinctSources(args) && 0 < i < |args| && Register(reg, args[0]).Ok?
    ensures Sound(Register(reg, args[0]).value)
    ensures WrittenBefore(reg, args, i, id)
       <==> TargetId(reg, args[0]) == id || WrittenBefore(Register(reg, args[0]).value, args[1..], i - 1, id)
  {
    hide Register;
    hide TargetId;
    hide UniqueSources;
    hide SoundOps;
    hide SoundLogs;
    RestTargets(reg, args);
    var reg', rest := Register(reg, args[0]).value, args[1..];
    assert forall j :: 0 < j < i ==> rest[j - 1] == args[j];
    if j :| 0 <= j < i && TargetId(reg, args[j]) == id {
      assert j > 0 ==> TargetId(reg', rest[j - 1]) == id;
    }
    if j :| 0 <= j < i - 1 && TargetId(reg', rest[j]) == id {
      assert TargetId(reg, args[j + 1]) == id;
    }
  }

  lemma RestIdFree(reg: Registry, args: seq<Args>, i: nat)
    requires Sound(reg) && DistinctSources(args) && 0 < i < |args| && Register(reg, args[0]).Ok?
    ensures Sound(Register(reg, args[0]).value)
    ensures IdFree(reg, args, i) <==> IdFree(Register(reg, args[0]).value, args[1..], i - 1)
  {
    hide Register;
    hide TargetId;
    hide TargetKey;
    hide UniqueSources;
    hide SoundOps;
    hide SoundLogs;
    hide WrittenBefore;
    RestTargets(reg, args);
    FirstWrites(reg, args[0]);
    RestWrittenBefore(reg, args, i, args[i].operationId);
  }

  /** With free ids no two registrations write the same operation. */
  lemma TargetsDiffer(reg: Registry, args: seq<Args>, i: nat)
    requires UniqueSources(reg.ops) && DistinctSources(args) && i < |args|
    requires forall j :: 0 <= j <= i ==> IdFree(reg, args, j)
    ensures !WrittenBefore(reg, args, i, TargetId(reg, args[i]))
  {
    if j :| 0 <= j < i && TargetId(reg, args[j]) == TargetId(reg, args[i]) {
      assert IdFree(reg, args, i) && IdFree(reg, args, j);
      assert !SameSource(args[j], args[i]);
      assert WrittenBefore(reg, args, i, TargetId(reg, args[i]));
    }
  }

  lemma RestKeyUnused(reg: Registry, args: seq<Args>, i: nat, other: string)
    requires Sound(reg) && DistinctSources(args) && 0 < i < |args| && Register(reg, args[0]).Ok?
    ensures Sound(Register(reg, args[0]).value)
    ensures var reg', first := Register(reg, args[0]).value, TargetId(reg, args[0]);
      if other != first then KeyUnused(reg, args, i, other) <==> KeyUnused(reg', args[1..], i - 1, other)
      else
        && KeyUnused(reg, args, i, other)
        && (first != TargetId(reg, args[i]) && !WrittenBefore(reg', args[1..], i - 1, first) ==>
              (KeyUnused(reg', args[1..], i - 1, first) <==> TargetKey(reg, args[0]) != TargetKey(reg, args[i])))
  {
    hide Register;
    hide TargetId;
    hide TargetKey;
    hide UniqueSources;
    hide SoundOps;
    hide SoundLogs;
    hide WrittenBefore;
    RestTargets(reg, args);
    FirstWrites(reg, args[0]);
    RestWrittenBefore(reg, args, i, other);
    assert args[1..][i - 1] == args[i];
  }

  lemma RestKeyNotRepeated(reg: Registry, args: seq<Args>, i: nat)
    requires Sound(reg) && DistinctSources(args) && 0 < i < |args| && Register(reg, args[0]).Ok?
    ensures Sound(Register(reg, args[0]).value)
    ensures KeyNotRepeated(reg, args, i) <==>
      && TargetKey(reg, args[0]) != TargetKey(reg, args[i])
      && KeyNotRepeated(Register(reg, args[0]).value, args[1..], i - 1)
  {
    hide Register;
    hide TargetKey;
    hide UniqueSources;
    hide SoundOps;
    hide SoundLogs;
    RestTargets(reg, args);
    var rest := args[1..];
    assert forall j :: 0 < j <= i ==> rest[j - 1] == args[j];
    assert forall j :: 0 <= j < i - 1 ==> rest[j] == args[j + 1];
  }

  /** When the targets differ, the key of a later registration is judged alike before and after the first. */
  lemma RestKeyFree(reg: Registry, args: seq<Args>, i: nat)
    requires Sound(reg) && DistinctSources(args) && 0 < i < |args| && Register(reg, args[0]).Ok?
    requires forall j :: 0 <= j < |args| ==> IdFree(reg, args, j)
    ensures Sound(Register(reg, args[0]).value)
    ensures KeyFree(reg, args, i) <==> KeyFree(Register(reg, args[0]).value, args[1..], i - 1)
  {
    hide Register;
    hide TargetId;
    hide TargetKey;
    hide UniqueSources;
    hide SoundOps;
    hide SoundLogs;
    hide IdFree;
    hide WrittenBefore;
    hide KeyUnused;
    hide KeyNotRepeated;
    RestTargets(reg, args);
    var reg', first := Register(reg, args[0]).value, TargetId(reg, args[0]);
    var rest, k := args[1..], i - 1;
    FirstIsWrittenOnce(reg, args, i);
    forall other
      ensures other != first ==> (KeyUnused(reg, args, i, other) <==> KeyUnused(reg', rest, k, other))
    {
      RestKeyUnused(reg, args, i, other);
    }
    RestKeyUnused(reg, args, i, first);
    RestKeyNotRepeated(reg, args, i);
    assert rest[k] == args[i];
    if TargetKey(reg, args[i]).Some? && KeyFree(reg', rest, k) {
      assert KeyUnused(reg', rest, k, first);
      forall other
        ensures KeyUnused(reg, args, i, other)
      {
        assert KeyUnused(reg', rest, k, other);
      }
    }
    if TargetKey(reg, args[i]).Some? && KeyFree(reg, args, i) {
      forall other
        ensures KeyUnused(reg', rest, k, other)
      {
        assert KeyUnused(reg, args, i, other);
      }
    }
  }

  lemma FirstIsWrittenOnce(reg: Registry, args: seq<Args>, i: nat)
    requires Sound(reg) && DistinctSources(args) && 0 < i < |args| && Register(reg, args[0]).Ok?
    requires forall j :: 0 <= j < |args| ==> IdFree(reg, args, j)
    ensures Sound(Register(reg, args[0]).value)
    ensures var first := TargetId(reg, args[0]);
      first != TargetId(reg, args[i]) && !WrittenBefore(Register(reg, args[0]).value, args[1..], i - 1, first)
  {
    hide Register;
    hide TargetId;
    hide IdFree;
    hide UniqueSources;
    hide SoundOps;
    hide SoundLogs;
    RestTargets(reg, args);
    var first := TargetId(reg, args[0]);
    forall j | 0 < j <= i
      ensures TargetId(reg, args[j]) != first
    {
      TargetsDiffer(reg, args, j);
    }
    assert forall j :: 0 <= j < i - 1 ==> args[1..][j] == args[j + 1];
  }

  // ---- The whole list ----

  /** A list of registrations of different sources goes through exactly when its ids and keys are free. */
  lemma {:induction false} GoesThroughExactly(reg: Registry, args: seq<Args>)
    requires Sound(reg) && DistinctSources(args)
    ensures SyncRows(reg, args).1 <==> Registrable(reg, args)
    decreases |args|
  {
    if args != [] {
      FirstGoesThrough(reg, args);
      if Register(reg, args[0]).Ok? {
        RegisterKeepsSound(reg, args[0]);
        GoesThroughExactly(Register(reg, args[0]).value, args[1..]);
        RestRegistrable(reg, args);
      } else {
        FirstFails(reg, args);
      }
    }
  }

  lemma FirstFails(reg: Registry, args: seq<Args>)
    requires Sound(reg) && args != [] && Register(reg, args[0]).Err?
    ensures !SyncRows(reg, args).1
  {
  }

  lemma RestRegistrable(reg: Registry, args: seq<Args>)
    requires Sound(reg) && DistinctSources(args) && args != [] && Register(reg, args[0]).Ok?
    ensures Sound(Register(reg, args[0]).value)
    ensures Registrable(reg, args) <==> Registrable(Register(reg, args[0]).value, args[1..])
  {
    hide Register;
    hide UniqueSources;
    hide SoundOps;
    hide SoundLogs;
    hide IdFree;
    hide KeyFree;
    RegisterKeepsSound(reg, args[0]);
    FirstGoesThrough(reg, args);
    var reg', rest := Register(reg, args[0]).value, args[1..];
    forall i | 0 < i < |args|
      ensures IdFree(reg, args, i) <==> IdFree(reg', rest, i - 1)
    {
      RestIdFree(reg, args, i);
    }
    ShiftedIds(reg, args, reg', rest);
    if forall i :: 0 <= i < |args| ==> IdFree(reg, args, i) {
      forall i | 0 < i < |args|
        ensures KeyFree(reg, args, i) <==> KeyFree(reg', rest, i - 1)
      {
        RestKeyFree(reg, args, i);
      }
      ShiftedKeys(reg, args, reg', rest);
    }
  }

  lemma ShiftedIds(reg: Registry, args: seq<Args>, reg': Registry, rest: seq<Args>)
    requires UniqueSources(reg.ops) && UniqueSources(reg'.ops) && args != [] && rest == args[1..]
    requires IdFree(reg, args, 0)
    requires forall i :: 0 < i < |args| ==> (IdFree(reg, args, i) <==> IdFree(reg', rest, i - 1))
    ensures (forall i :: 0 <= i < |args| ==> IdFree(reg, args, i))
       <==> forall i :: 0 <= i < |rest| ==> IdFree(reg', rest, i)
  {
    hide IdFree;
    assert forall i :: 0 <= i < |rest| ==> (IdFree(reg', rest, i) <==> IdFree(reg, args, i + 1));
  }

  lemma ShiftedKeys(reg: Registry, args: seq<Args>, reg': Registry, rest: seq<Args>)
    requires UniqueSources(reg.ops) && UniqueSources(reg'.ops) && args != [] && rest == args[1..]
    requires KeyFree(reg, args, 0)
    requires forall i :: 0 < i < |args| ==> (KeyFree(reg, args, i) <==> KeyFree(reg', rest, i - 1))
    ensures (forall i :: 0 <= i < |args| ==> KeyFree(reg, args, i))
       <==> forall i :: 0 <= i < |rest| ==> KeyFree(reg', rest, i)
  {
    hide KeyFree;
    assert forall i :: 0 <= i < |rest| ==> (KeyFree(reg', rest, i) <==> KeyFree(reg, args, i + 1));
  }
}
