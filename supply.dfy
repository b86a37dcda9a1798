/**
 * The coin supply of a state. Actions never create coins: a transfer to an unregistered
 * sink destroys its amount, everything else conserves the total. Hence, when the supply of a
 * branch fits in a u128, no balance can overflow the u128 that `Action::perform` adds to,
 * and the counters stay within their u64.
 */
module Supply {
  import opened Bytes
  import opened Types
  import opened Actions
  import opened Blocks

  /** The sum of the balances of the accounts in ids. */
  ghost function SumOver(s: State, ids: set<Identity>): nat
    requires ids <= s.Keys
    decreases ids
  {
    if ids == {} then 0
    else
      var id :| id in ids;
      s[id].balance + SumOver(s, ids - {id})
  }

  /** All coins held in a state. */
  ghost function Total(s: State): nat
  {
    SumOver(s, s.Keys)
  }

  lemma {:induction false} SumOverRemove(s: State, ids: set<Identity>, k: Identity)
    requires ids <= s.Keys && k in ids
    ensures SumOver(s, ids) == s[k].balance + SumOver(s, ids - {k})
    decreases ids
  {
    var x :| x in ids && SumOver(s, ids) == s[x].balance + SumOver(s, ids - {x});
    if x != k {
      SumOverRemove(s, ids - {x}, k);
      SumOverRemove(s, ids - {k}, x);
      assert ids - {x} - {k} == ids - {k} - {x};
    }
  }

  lemma {:induction false} SumOverAgree(s: State, t: State, ids: set<Identity>)
    requires ids <= s.Keys && ids <= t.Keys
    requires forall id | id in ids :: s[id].balance == t[id].balance
    ensures SumOver(s, ids) == SumOver(t, ids)
    decreases ids
  {
    if ids != {} {
      var x :| x in ids;
      SumOverRemove(s, ids, x);
      SumOverRemove(t, ids, x);
      SumOverAgree(s, t, ids - {x});
    }
  }

  /** Replacing one account changes the total by the difference of its balances. */
  lemma SumOverUpdate(s: State, k: Identity, v: Account)
    requires k in s
    ensures Total(s[k := v]) + s[k].balance == Total(s) + v.balance
  {
    var t := s[k := v];
    assert t.Keys == s.Keys;
    SumOverRemove(s, s.Keys, k);
    SumOverRemove(t, s.Keys, k);
    SumOverAgree(s, t, s.Keys - {k});
  }

  /** Every balance is part of the total. */
  lemma BalanceWithinTotal(s: State, id: Identity)
    requires id in s
    ensures s[id].balance <= Total(s)
  {
    SumOverRemove(s, s.Keys, id);
  }

  /**
   * A verified action conserves the supply, except that a transfer to an unregistered sink
   * destroys its amount.
   */
  lemma PerformSupply(a: Action, s: State, sigOk: SigCheck)
    requires Verify(a, s, sigOk)
    ensures Total(Perform(a, s)) + (if a.Transaction? && a.sink !in s then a.amount else 0) == Total(s)
  {
    match a
    case AddPublicKey(id, pk) =>
      var r := Perform(a, s);
      assert r.Keys - {id} == s.Keys;
      SumOverRemove(r, r.Keys, id);
      SumOverAgree(r, s, s.Keys);
    case Transaction(source, sink, _, amount, _) =>
      var src := s[source];
      var debited := s[source := src.(balance := src.balance - amount, counter := src.counter + 1)];
      SumOverUpdate(s, source, debited[source]);
      if sink in debited {
        var credited := debited[sink].(balance := debited[sink].balance + amount);
        SumOverUpdate(debited, sink, credited);
        assert Perform(a, s) == debited[sink := credited];
      } else {
        assert Perform(a, s) == debited;
      }
  }

  /** Applying a block's actions never increases the supply. */
  lemma {:induction false} ApplyActionsSupply(s: State, actions: seq<Action>, sigOk: SigCheck)
    requires ApplyActions(s, actions, sigOk).Some?
    ensures Total(ApplyActions(s, actions, sigOk).value) <= Total(s)
    decreases |actions|
  {
    if actions != [] {
      PerformSupply(actions[0], s, sigOk);
      ApplyActionsSupply(Perform(actions[0], s), actions[1..], sigOk);
    }
  }

  /** The supply fits in a u128 and every counter in a u64: the Rust widths of State. */
  ghost predicate FitsWidths(s: State)
  {
    && Total(s) < U128_LIMIT
    && forall id | id in s :: s[id].counter < U64_LIMIT
  }

  /** Under FitsWidths every balance is a valid u128. */
  lemma FitsWidthsBalances(s: State)
    requires FitsWidths(s)
    ensures forall id | id in s :: s[id].balance < U128_LIMIT
  {
    forall id | id in s
      ensures s[id].balance < U128_LIMIT
    {
      BalanceWithinTotal(s, id);
    }
  }

  /** A verified action keeps balances and counters within their Rust widths. */
  lemma PerformFitsWidths(a: Action, s: State, sigOk: SigCheck)
    requires Verify(a, s, sigOk) && FitsWidths(s)
    ensures FitsWidths(Perform(a, s))
  {
    PerformSupply(a, s, sigOk);
  }

  /** So does every block whose actions all apply. */
  lemma {:induction false} ApplyActionsFitsWidths(s: State, actions: seq<Action>, sigOk: SigCheck)
    requires ApplyActions(s, actions, sigOk).Some? && FitsWidths(s)
    ensures FitsWidths(ApplyActions(s, actions, sigOk).value)
    decreases |actions|
  {
    if actions != [] {
      PerformFitsWidths(actions[0], s, sigOk);
      ApplyActionsFitsWidths(Perform(actions[0], s), actions[1..], sigOk);
    }
  }
}
