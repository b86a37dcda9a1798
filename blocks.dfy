/**
 * Block admission into the forest of known timelines (`Block::perform`, src/main.rs:45-71):
 * the parent lookup, the timestamp window, all-or-nothing application of the actions to a
 * copy of the parent's state, the adaptive size cap and the insertion under the block's hash.
 */
module Blocks {
  import opened Types
  import opened Actions
  import opened Encoding

  /**
   * Applies the actions in order, each verified against the state the earlier ones produced;
   * None as soon as one of them does not verify.
   */
  function ApplyActions(s: State, actions: seq<Action>, sigOk: SigCheck): (r: Option<State>)
    ensures r.Some? ==> Descends(s, r.value)
    decreases |actions|
  {
    if actions == [] then Some(s)
    else if !Verify(actions[0], s, sigOk) then None
    else
      PerformDescends(actions[0], s, sigOk);
      ApplyActions(Perform(actions[0], s), actions[1..], sigOk)
  }

  lemma {:induction false} ApplyActionsAppend(s: State, p: seq<Action>, q: seq<Action>, sigOk: SigCheck)
    ensures ApplyActions(s, p + q, sigOk) ==
      match ApplyActions(s, p, sigOk)
      case None => None
      case Some(t) => ApplyActions(t, q, sigOk)
    decreases |p|
  {
    if p == [] {
      assert p + q == q;
    } else {
      assert (p + q)[0] == p[0];
      assert (p + q)[1..] == p[1..] + q;
      if Verify(p[0], s, sigOk) {
        ApplyActionsAppend(Perform(p[0], s), p[1..], q, sigOk);
      }
    }
  }

  /** One more action: it is verified against the state its predecessors left, then performed. */
  lemma ApplyActionsSnoc(s: State, actions: seq<Action>, i: nat, t: State, sigOk: SigCheck)
    requires i < |actions|
    requires ApplyActions(s, actions[..i], sigOk) == Some(t)
    ensures ApplyActions(s, actions[..i + 1], sigOk) ==
      if Verify(actions[i], t, sigOk) then Some(Perform(actions[i], t)) else None
  {
    assert actions[..i + 1] == actions[..i] + [actions[i]];
    ApplyActionsAppend(s, actions[..i], [actions[i]], sigOk);
    assert [actions[i]][1..] == [];
  }

  /** Action i is where application stops: all before it apply, and it does not verify. */
  predicate FailsAt(s: State, actions: seq<Action>, i: nat, sigOk: SigCheck)
    requires i < |actions|
  {
    var before := ApplyActions(s, actions[..i], sigOk);
    before.Some? && !Verify(actions[i], before.value, sigOk)
  }

  /** A list of actions is rejected exactly when some action fails against the state accumulated before it. */
  lemma {:induction false} ApplyActionsNoneIff(s: State, actions: seq<Action>, sigOk: SigCheck)
    ensures ApplyActions(s, actions, sigOk).None? <==>
      exists i :: 0 <= i < |actions| && FailsAt(s, actions, i, sigOk)
    decreases |actions|
  {
    if exists i :: 0 <= i < |actions| && FailsAt(s, actions, i, sigOk) {
      var i :| 0 <= i < |actions| && FailsAt(s, actions, i, sigOk);
      var t := ApplyActions(s, actions[..i], sigOk).value;
      assert actions[..i] + actions[i..] == actions;
      ApplyActionsAppend(s, actions[..i], actions[i..], sigOk);
      assert actions[i..][0] == actions[i];
    }
    if ApplyActions(s, actions, sigOk).None? {
      assert actions != [];
      assert actions[..0] == [];
      if Verify(actions[0], s, sigOk) {
        var s' := Perform(actions[0], s);
        ApplyActionsNoneIff(s', actions[1..], sigOk);
        var j :| 0 <= j < |actions[1..]| && FailsAt(s', actions[1..], j, sigOk);
        var prefix := actions[..j + 1];
        assert prefix[0] == actions[0];
        assert prefix[1..] == actions[1..][..j];
        assert ApplyActions(s, prefix, sigOk) == ApplyActions(s', actions[1..][..j], sigOk);
        assert FailsAt(s, actions, j + 1, sigOk);
      } else {
        assert FailsAt(s, actions, 0, sigOk);
      }
    }
  }

  /** In an applied list, every action verified against its predecessors' state and the final state extends its effect. */
  lemma AppliedAction(s: State, actions: seq<Action>, i: nat, sigOk: SigCheck)
    requires ApplyActions(s, actions, sigOk).Some?
    requires i < |actions|
    ensures ApplyActions(s, actions[..i], sigOk).Some?
    ensures var t := ApplyActions(s, actions[..i], sigOk).value;
      && Verify(actions[i], t, sigOk)
      && Descends(Perform(actions[i], t), ApplyActions(s, actions, sigOk).value)
  {
    assert actions[..i] + actions[i..] == actions;
    ApplyActionsAppend(s, actions[..i], actions[i..], sigOk);
    var t := ApplyActions(s, actions[..i], sigOk).value;
    assert actions[i..][0] == actions[i];
    assert Verify(actions[i], t, sigOk);
    assert ApplyActions(s, actions, sigOk) == ApplyActions(Perform(actions[i], t), actions[i..][1..], sigOk);
  }

  /**
   * Replay protection across a block and its descendants: no action of an applied list verifies
   * against the resulting state or any state that extends it.
   */
  lemma ActionStaleAfterApply(s: State, actions: seq<Action>, i: nat, u: State, sigOk: SigCheck)
    requires ApplyActions(s, actions, sigOk).Some?
    requires i < |actions|
    requires Descends(ApplyActions(s, actions, sigOk).value, u)
    ensures !Verify(actions[i], u, sigOk)
  {
    AppliedAction(s, actions, i, sigOk);
    var t := ApplyActions(s, actions[..i], sigOk).value;
    DescendsTransitive(Perform(actions[i], t), ApplyActions(s, actions, sigOk).value, u);
    VerifiedActionIsStale(actions[i], t, u, sigOk);
  }

  /**
   * The size cap a child inherits: one more when the parent block was full, one less when it
   * used under half of its cap, otherwise the same.
   */
  function NextMaxSize(parentLen: nat, maxSize: nat): (r: nat)
    ensures r > maxSize <==> parentLen == maxSize
    ensures r < maxSize <==> parentLen != maxSize && 2 * parentLen + 1 < maxSize
    ensures maxSize - 1 <= r <= maxSize + 1
    ensures maxSize >= 1 ==> r >= 1
  {
    if parentLen == maxSize then maxSize + 1
    else if parentLen < maxSize / 2 then maxSize - 1
    else maxSize
  }

  lemma SizeCapExamples()
    ensures NextMaxSize(10, 10) == 11
    ensures NextMaxSize(4, 10) == 9
    ensures NextMaxSize(7, 10) == 10
    ensures NextMaxSize(0, 1) == 1
  {
  }

  /**
   * The entry `Block::perform` would insert for b, or None when it returns false:
   * unknown parent, timestamp outside (parent's, now), or an action that does not verify.
   */
  function Admit(known: KnownTimelines, b: Block, now: Timestamp, sigOk: SigCheck): (r: Option<Entry>)
    ensures r.Some? ==> b.prevHash in known && r.value.block == b
    ensures r.Some? ==> Descends(known[b.prevHash].state, r.value.state)
  {
    if b.prevHash !in known then None
    else
      var parent := known[b.prevHash];
      if !(parent.block.timestamp < b.timestamp && b.timestamp < now) then None
      else
        match ApplyActions(parent.state, b.actions, sigOk)
        case None => None
        case Some(state) => Some(Entry(b, state, NextMaxSize(|parent.block.actions|, parent.maxSize)))
  }

  /** The key a block is stored under: the hash of its encoding. */
  function BlockKey(b: Block, hash: Hasher): HashOutput
  {
    hash(BlockBytes(b))
  }

  /** The known timelines after `Block::perform`: unchanged on rejection, one key (re)set on success. */
  function AfterPerform(known: KnownTimelines, b: Block, now: Timestamp, hash: Hasher, sigOk: SigCheck): KnownTimelines
  {
    match Admit(known, b, now, sigOk)
    case None => known
    case Some(e) => known[BlockKey(b, hash) := e]
  }

  /** The rejection cases of `Block::perform`, and what it stores when it accepts. */
  lemma AdmitCases(known: KnownTimelines, b: Block, now: Timestamp, sigOk: SigCheck)
    ensures Admit(known, b, now, sigOk).None? <==>
      || b.prevHash !in known
      || !(known[b.prevHash].block.timestamp < b.timestamp < now)
      || exists i :: 0 <= i < |b.actions| && FailsAt(known[b.prevHash].state, b.actions, i, sigOk)
    ensures Admit(known, b, now, sigOk).Some? ==>
      var parent := known[b.prevHash];
      && ApplyActions(parent.state, b.actions, sigOk).Some?
      && Admit(known, b, now, sigOk).value ==
         Entry(b, ApplyActions(parent.state, b.actions, sigOk).value,
               NextMaxSize(|parent.block.actions|, parent.maxSize))
  {
    if b.prevHash in known {
      ApplyActionsNoneIff(known[b.prevHash].state, b.actions, sigOk);
    }
  }

  /** Exactly one key changes on success, none on failure; a previous entry under that key is replaced. */
  lemma AfterPerformFrame(known: KnownTimelines, b: Block, now: Timestamp, hash: Hasher, sigOk: SigCheck)
    ensures var r := AfterPerform(known, b, now, hash, sigOk);
      match Admit(known, b, now, sigOk)
      case None => r == known
      case Some(e) =>
        && r.Keys == known.Keys + {BlockKey(b, hash)}
        && r[BlockKey(b, hash)] == e
        && forall h | h in known && h != BlockKey(b, hash) :: r[h] == known[h]
  {
  }

  /**
   * Forks: admitting a block does not change how a sibling (same parent) is judged, unless the
   * first block's hash collides with the parent's; and distinct siblings are both kept.
   */
  lemma SiblingsIndependent(known: KnownTimelines, b1: Block, b2: Block, now1: Timestamp, now2: Timestamp,
                            hash: Hasher, sigOk: SigCheck)
    requires b1.prevHash == b2.prevHash
    requires BlockKey(b1, hash) != b1.prevHash
    ensures Admit(AfterPerform(known, b1, now1, hash, sigOk), b2, now2, sigOk) == Admit(known, b2, now2, sigOk)
    ensures var both := AfterPerform(AfterPerform(known, b1, now1, hash, sigOk), b2, now2, hash, sigOk);
      Admit(known, b1, now1, sigOk).Some? && Admit(known, b2, now2, sigOk).Some?
      && BlockKey(b1, hash) != BlockKey(b2, hash) ==>
        && both[BlockKey(b1, hash)] == Admit(known, b1, now1, sigOk).value
        && both[BlockKey(b2, hash)] == Admit(known, b2, now2, sigOk).value
  {
    var k1 := AfterPerform(known, b1, now1, hash, sigOk);
    assert b1.prevHash in k1 <==> b1.prevHash in known;
    if b1.prevHash in known {
      assert k1[b1.prevHash] == known[b1.prevHash];
    }
  }

  /**
   * The timestamp is not hashed, so a block that differs from an admitted one only in its
   * timestamp lands on the same key and, if admitted, replaces the earlier entry.
   */
  lemma TimestampNotInKey(known: KnownTimelines, b: Block, t: Timestamp, now1: Timestamp, now2: Timestamp,
                          hash: Hasher, sigOk: SigCheck)
    ensures BlockKey(b.(timestamp := t), hash) == BlockKey(b, hash)
    ensures var after := AfterPerform(AfterPerform(known, b, now1, hash, sigOk), b.(timestamp := t), now2, hash, sigOk);
      Admit(AfterPerform(known, b, now1, hash, sigOk), b.(timestamp := t), now2, sigOk).Some? ==>
        after[BlockKey(b, hash)].block.timestamp == t
  {
    assert BlockBytes(b.(timestamp := t)) == BlockBytes(b);
  }

  /**
   * Replay across blocks: once a block is admitted, a block built on its state (or on any
   * state extending it) that repeats one of its actions is rejected.
   */
  lemma ReplayedActionRejected(known: KnownTimelines, b1: Block, now1: Timestamp,
                               known2: KnownTimelines, b2: Block, now2: Timestamp,
                               i: nat, j: nat, sigOk: SigCheck)
    requires Admit(known, b1, now1, sigOk).Some?
    requires b2.prevHash in known2
    requires Descends(Admit(known, b1, now1, sigOk).value.state, known2[b2.prevHash].state)
    requires i < |b1.actions| && j < |b2.actions| && b2.actions[j] == b1.actions[i]
    ensures Admit(known2, b2, now2, sigOk).None?
  {
    var parent1 := known[b1.prevHash].state;
    var s1 := Admit(known, b1, now1, sigOk).value.state;
    AdmitCases(known, b1, now1, sigOk);
    var p2 := known2[b2.prevHash].state;
    if ApplyActions(p2, b2.actions, sigOk).Some? {
      AppliedAction(p2, b2.actions, j, sigOk);
      var t := ApplyActions(p2, b2.actions[..j], sigOk).value;
      DescendsTransitive(s1, p2, t);
      ActionStaleAfterApply(parent1, b1.actions, i, t, sigOk);
      assert false;
    }
  }

  /** The forest of known timelines (`KnownTimelines`), which `Block::perform` extends in place. */
  class Timelines {
    var known: KnownTimelines
    /** The entries the caller seeded, such as a genesis block; only these may lack a known parent. */
    ghost var roots: set<HashOutput>

    ghost predicate Valid()
      reads this
    {
      forall h | h in known :: h in roots || known[h].block.prevHash in known
    }

    constructor (initial: KnownTimelines)
      ensures Valid()
      ensures known == initial && roots == initial.Keys
    {
      known := initial;
      roots := initial.Keys;
    }

    /** `Block::perform`: admits b under its hash and returns true, or returns false and changes nothing. */
    method PerformBlock(b: Block, now: Timestamp, hash: Hasher, sigOk: SigCheck) returns (ok: bool)
      requires Valid()
      modifies this
      ensures Valid() && roots == old(roots)
      ensures ok == Admit(old(known), b, now, sigOk).Some?
      ensures known == AfterPerform(old(known), b, now, hash, sigOk)
    {
      if b.prevHash !in known {
        return false;
      }
      var parent := known[b.prevHash];
      if !(parent.block.timestamp < b.timestamp && b.timestamp < now) {
        return false;
      }
      var state := parent.state;
      for i := 0 to |b.actions|
        invariant ApplyActions(parent.state, b.actions[..i], sigOk) == Some(state)
        invariant known == old(known) && roots == old(roots)
      {
        var valid := VerifyAction(b.actions[i], state, sigOk);
        if !valid {
          assert FailsAt(parent.state, b.actions, i, sigOk);
          ApplyActionsNoneIff(parent.state, b.actions, sigOk);
          return false;
        }
        ApplyActionsSnoc(parent.state, b.actions, i, state, sigOk);
        state := Perform(b.actions[i], state);
      }
      assert b.actions[..|b.actions|] == b.actions;
      var maxSize := parent.maxSize;
      if |parent.block.actions| == maxSize {
        maxSize := maxSize + 1;
      } else if |parent.block.actions| < maxSize / 2 {
        maxSize := maxSize - 1;
      }
      var bytes := BlockToBytes(b);
      known := known[hash(bytes) := Entry(b, state, maxSize)];
      ok := true;
    }
  }
}
