/**
 The pattern both request builders share: items are taken in order, each must be in form, have a
 key of its own, and leave a running total within a bound.
 */
module Sealing {
  import opened Words

  function Total<T>(items: seq<T>, cost: T -> nat): (sum: nat) {
    if items == [] then 0 else Total(items[..|items| - 1], cost) + cost(items[|items| - 1])
  }

  function KeysOf<T>(items: seq<T>, key: T -> Bytes): set<Bytes> {
    set i | 0 <= i < |items| :: key(items[i])
  }

  predicate Distinct<T>(items: seq<T>, key: T -> Bytes) {
    forall i, j :: 0 <= i < j < |items| ==> key(items[i]) != key(items[j])
  }

  /** What a whole list must meet; the bound is looked at once per item. */
  predicate Fits<T>(items: seq<T>, start: nat, form: T -> bool, key: T -> Bytes, cost: T -> nat, max: nat) {
    && (forall i :: 0 <= i < |items| ==> form(items[i])) && Distinct(items, key)
    && (items != [] ==> start + Total(items, cost) <= max)
  }

  /** What one item must meet, after the items whose keys are `keys`. */
  predicate Passes<T>(item: T, keys: set<Bytes>, start: nat, form: T -> bool, key: T -> Bytes, cost: T -> nat, max: nat)
  {
    form(item) && start + cost(item) <= max && key(item) !in keys
  }

  lemma {:induction false} TotalGrows<T>(items: seq<T>, i: nat, cost: T -> nat)
    requires i <= |items|
    ensures Total(items[..i], cost) <= Total(items, cost)
    ensures i < |items| ==> Total(items[..i + 1], cost) == Total(items[..i], cost) + cost(items[i])
    decreases |items|
  {
    if i == |items| {
      assert items[..i] == items;
    } else {
      TotalGrows(items[..|items| - 1], i, cost);
      assert items[..|items| - 1][..i] == items[..i];
      assert items[..i + 1][..i] == items[..i];
    }
  }

  /** One item costs no more than all of them. */
  lemma {:induction false} CostWithin<T>(items: seq<T>, i: nat, cost: T -> nat)
    requires i < |items|
    ensures cost(items[i]) <= Total(items, cost)
  {
    TotalGrows(items, i, cost);
    TotalGrows(items, i + 1, cost);
  }

  lemma {:induction false} DistinctStep<T>(front: seq<T>, last: T, key: T -> Bytes)
    ensures Distinct(front + [last], key) <==> Distinct(front, key) && key(last) !in KeysOf(front, key)
    ensures KeysOf(front + [last], key) == KeysOf(front, key) + {key(last)}
  {
    var all := front + [last];
    assert forall i :: 0 <= i < |front| ==> all[i] == front[i];
    assert all[|front|] == last;
    if Distinct(all, key) {
      assert forall i :: 0 <= i < |front| ==> key(all[i]) != key(all[|front|]);
    }
  }

  /** A prefix fits when the one before it does and its last item passes; a failing item spoils the whole. */
  lemma {:induction false} FitsStep<T>(items: seq<T>, index: nat, start: nat, form: T -> bool, key: T -> Bytes,
                                       cost: T -> nat, max: nat)
    requires index < |items| && Fits(items[..index], start, form, key, cost, max)
    ensures var before := items[..index];
      if Passes(items[index], KeysOf(before, key), start + Total(before, cost), form, key, cost, max)
      then Fits(items[..index + 1], start, form, key, cost, max)
      else !Fits(items, start, form, key, cost, max)
    ensures Total(items[..index + 1], cost) == Total(items[..index], cost) + cost(items[index])
    ensures KeysOf(items[..index + 1], key) == KeysOf(items[..index], key) + {key(items[index])}
  {
    TotalGrows(items, index, cost);
    TotalGrows(items, index + 1, cost);
    assert items[..index + 1] == items[..index] + [items[index]];
    DistinctStep(items[..index], items[index], key);
    assert !Distinct(items[..index + 1], key) ==> !Distinct(items, key);
  }
}
