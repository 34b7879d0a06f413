/**
 Python's `dict` from characters to counts, as far as the program relies on
 it: a dict remembers the order in which its keys were first inserted,
 `items()` lists the pairs in that order, and `dict(pairs)` rebuilds a
 dict by inserting the pairs one after the other.
 */
module Dicts {
  import opened Seqs

  /** One `(character, count)` pair of `items()`. */
  datatype Entry = Entry(ch: char, count: nat)

  /** A dict: its keys in insertion order, and the value stored under each key. */
  datatype Dict = Dict(keys: seq<char>, values: map<char, nat>) {

    /** Every key is listed once, and exactly the stored keys are listed. */
    ghost predicate Valid() {
      Distinct(keys) && forall c :: c in values <==> c in keys
    }

    /** `items()`: the pairs, in insertion order. */
    function Items(): seq<Entry>
      requires Valid()
    {
      seq(|keys|, i requires 0 <= i < |keys| => Entry(keys[i], values[keys[i]]))
    }
  }

  /** No two entries share a character. */
  ghost predicate DistinctKeys(s: seq<Entry>) {
    forall i, j :: 0 <= i < j < |s| ==> s[i].ch != s[j].ch
  }

  /**
   `dict(pairs)`: each pair is stored in turn; a key already present keeps its
   place and takes the later value, a new key goes to the end.
   */
  function FromItems(items: seq<Entry>): (d: Dict)
    ensures d.Valid()
    ensures forall i :: 0 <= i < |items| ==> items[i].ch in d.values
    ensures forall c :: c in d.values ==> exists i :: 0 <= i < |items| && items[i].ch == c
  {
    if items == [] then Dict([], map[])
    else
      var init := items[..|items| - 1];
      var e := items[|items| - 1];
      var d := FromItems(init);
      assert forall i :: 0 <= i < |init| ==> init[i] == items[i];
      if e.ch in d.values then Dict(d.keys, d.values[e.ch := e.count])
      else Dict(d.keys + [e.ch], d.values[e.ch := e.count])
  }

  /** Rebuilding a dict from its own items, whose keys are distinct, gives the items back unchanged. */
  lemma {:induction false} FromItemsRoundTrip(items: seq<Entry>)
    requires DistinctKeys(items)
    ensures FromItems(items).Items() == items
  {
    if items != [] {
      var init := items[..|items| - 1];
      var e := items[|items| - 1];
      var d := FromItems(init);
      FromItemsRoundTrip(init);
      assert e.ch !in d.values;
      var r := FromItems(items);
      assert r == Dict(d.keys + [e.ch], d.values[e.ch := e.count]);
      forall i | 0 <= i < |items| ensures r.Items()[i] == items[i] {
        if i < |init| {
          assert d.keys[i] in d.values;
          assert r.Items()[i] == d.Items()[i];
        }
      }
    }
  }
}
