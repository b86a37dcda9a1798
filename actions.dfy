/**
 * Validation and execution of a single ledger action against one branch's state
 * (`Action::verify` and `Action::perform`, src/main.rs:106-166).
 */
module Actions {
  import opened Bytes
  import opened Types

  /** The bytes a transfer's signature covers: source, sink, counter (8 bytes BE), amount (16 bytes BE). */
  function SignedPayload(source: Identity, sink: Identity, counter: u64, amount: u128): (r: seq<byte>)
    ensures |r| == 56
  {
    source + sink + BE(counter, 8) + BE(amount, 16)
  }

  /** Every field of the transfer sits at a fixed offset of the payload and can be read back from it. */
  lemma SignedPayloadFields(source: Identity, sink: Identity, counter: u64, amount: u128)
    ensures var r := SignedPayload(source, sink, counter, amount);
      && r[..16] == source && r[16..32] == sink
      && FromBE(r[32..40]) == counter && FromBE(r[40..56]) == amount
  {
    var r := SignedPayload(source, sink, counter, amount);
    assert r[32..40] == BE(counter, 8);
    assert r[40..56] == BE(amount, 16);
    Pow256Widths();
    FromBEOfBE(counter, 8);
    FromBEOfBE(amount, 16);
  }

  /** A signature over one transfer's payload is a signature over no other transfer. */
  lemma SignedPayloadInjective(source: Identity, sink: Identity, counter: u64, amount: u128,
                               source': Identity, sink': Identity, counter': u64, amount': u128)
    requires SignedPayload(source, sink, counter, amount) == SignedPayload(source', sink', counter', amount')
    ensures source == source' && sink == sink' && counter == counter' && amount == amount'
  {
    SignedPayloadFields(source, sink, counter, amount);
    SignedPayloadFields(source', sink', counter', amount');
  }

  /** Whether an action may be applied to a state (the specification of `Action::verify`). */
  predicate Verify(a: Action, s: State, sigOk: SigCheck)
  {
    match a
    case Transaction(source, sink, counter, amount, signature) =>
      && source in s
      && s[source].balance >= amount
      && s[source].counter + 1 == counter
      && sigOk(s[source].key, SignedPayload(source, sink, counter, amount), signature)
    case AddPublicKey(id, _) => id !in s
  }

  /** `Action::verify`: builds the signed payload byte by byte, then checks funds, counter and signature. */
  method VerifyAction(a: Action, s: State, sigOk: SigCheck) returns (ok: bool)
    ensures ok == Verify(a, s, sigOk)
  {
    match a
    case Transaction(source, sink, counter, amount, signature) =>
      if source !in s {
        return false;
      }
      var account := s[source];
      var fields := source + sink + BE(counter, 8) + BE(amount, 16);
      var toSign: seq<byte> := [];
      for i := 0 to |fields|
        invariant toSign == fields[..i]
      {
        toSign := toSign + [fields[i]];
      }
      assert toSign == SignedPayload(source, sink, counter, amount) by {
        assert fields[..|fields|] == fields;
      }
      ok := account.balance >= amount && account.counter + 1 == counter
            && sigOk(account.key, toSign, signature);
    case AddPublicKey(id, _) =>
      ok := id !in s;
  }

  /** What `Action::perform` needs so that the u128 debit of the source does not underflow. */
  predicate CanPerform(a: Action, s: State)
  {
    a.Transaction? && a.source in s ==> a.amount <= s[a.source].balance
  }

  /**
   * `Action::perform`: registers a key with zero balance and counter, or debits the source
   * and bumps its counter, then credits the sink only if the sink is registered.
   */
  function Perform(a: Action, s: State): (r: State)
    requires CanPerform(a, s)
    ensures a.AddPublicKey? ==>
      && r.Keys == s.Keys + {a.id}
      && r[a.id] == Account(a.pk, 0, 0)
      && forall id | id in s && id != a.id :: r[id] == s[id]
    ensures a.Transaction? ==> r.Keys == s.Keys
    ensures a.Transaction? ==> forall id | id in s && id != a.source && id != a.sink :: r[id] == s[id]
    ensures a.Transaction? ==> forall id | id in s :: r[id].key == s[id].key
    ensures a.Transaction? && a.source in s && a.source != a.sink ==>
      && r[a.source].balance == s[a.source].balance - a.amount
      && r[a.source].counter == s[a.source].counter + 1
    ensures a.Transaction? && a.sink in s && a.source != a.sink ==>
      && r[a.sink].balance == s[a.sink].balance + a.amount
      && r[a.sink].counter == s[a.sink].counter
    ensures a.Transaction? && a.source in s && a.source == a.sink ==>
      && r[a.source].balance == s[a.source].balance
      && r[a.source].counter == s[a.source].counter + 1
  {
    match a
    case AddPublicKey(id, pk) => s[id := Account(pk, 0, 0)]
    case Transaction(source, sink, _, amount, _) =>
      var debited :=
        if source in s then
          s[source := s[source].(balance := s[source].balance - amount, counter := s[source].counter + 1)]
        else s;
      if sink in debited then debited[sink := debited[sink].(balance := debited[sink].balance + amount)]
      else debited
  }

  /** t extends s: no account disappears, no registered key changes, no counter goes down. */
  predicate Descends(s: State, t: State)
  {
    && s.Keys <= t.Keys
    && forall id | id in s :: t[id].key == s[id].key && t[id].counter >= s[id].counter
  }

  /** A verified action never makes `perform` underflow a balance. */
  lemma VerifiedCanPerform(a: Action, s: State, sigOk: SigCheck)
    requires Verify(a, s, sigOk)
    ensures CanPerform(a, s)
  {
  }

  /** After a verified transfer the source's counter is the counter the transfer carried. */
  lemma PerformAdvancesCounter(a: Action, s: State, sigOk: SigCheck)
    requires a.Transaction? && Verify(a, s, sigOk)
    ensures a.source in Perform(a, s)
    ensures Perform(a, s)[a.source].counter == a.counter
  {
  }

  /** Performing a verified action only extends the state. */
  lemma PerformDescends(a: Action, s: State, sigOk: SigCheck)
    requires Verify(a, s, sigOk)
    ensures Descends(s, Perform(a, s))
  {
  }

  lemma DescendsTransitive(s: State, t: State, u: State)
    requires Descends(s, t) && Descends(t, u)
    ensures Descends(s, u)
  {
  }

  /**
   * Replay protection: once a verified action has been performed, it is rejected by the
   * resulting state and by every state that extends it.
   */
  lemma VerifiedActionIsStale(a: Action, s: State, t: State, sigOk: SigCheck)
    requires Verify(a, s, sigOk)
    requires Descends(Perform(a, s), t)
    ensures !Verify(a, t, sigOk)
  {
    if a.Transaction? {
      PerformAdvancesCounter(a, s, sigOk);
    }
  }
}
