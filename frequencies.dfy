/**
 The character frequency table `count_characters(text)`: the text is
 lower-cased and a dict is updated one character at a time, so that each
 character seen gets a key (placed when it is first seen) holding the
 number of times it occurs.
 */
module Frequencies {
  import opened Chars
  import opened Seqs
  import opened Dicts

  /** The number of occurrences of every character of `s`; absent characters are not keys. */
  function Tally(s: string): map<char, nat> {
    map c | c in s :: multiset(s)[c]
  }

  /** The distinct characters of `s`, in the order of their first occurrence. */
  function FirstOccurrences(s: string): (keys: seq<char>)
    ensures Distinct(keys)
    ensures forall c :: c in keys <==> c in s
  {
    if s == [] then []
    else
      var init := s[..|s| - 1];
      var c := s[|s| - 1];
      assert s == init + [c];
      var keys := FirstOccurrences(init);
      if c in keys then keys else keys + [c]
  }

  /** The position of the first `c` in `s`, or `|s|` when `c` does not occur. */
  function FirstIndex(s: string, c: char): (n: nat)
    ensures n <= |s|
    ensures n < |s| ==> s[n] == c
    ensures forall j :: 0 <= j < n ==> s[j] != c
  {
    if s == [] || s[0] == c then 0 else 1 + FirstIndex(s[1..], c)
  }

  /** The table built from `s`: first-occurrence key order, occurrence counts as values. */
  function Frequencies(s: string): (d: Dict)
    ensures d.Valid()
  {
    Dict(FirstOccurrences(s), Tally(s))
  }

  /** What `count_characters(text)` returns. */
  function CharacterCounts(text: string): Dict {
    Frequencies(LowerText(text))
  }

  /** The sum of the values stored under `keys`. */
  function SumOver(keys: seq<char>, values: map<char, nat>): nat
    requires forall c :: c in keys ==> c in values
  {
    if keys == [] then 0
    else SumOver(keys[..|keys| - 1], values) + values[keys[|keys| - 1]]
  }

  /** The sum of all counts in a table. */
  function Total(d: Dict): nat
    requires d.Valid()
  {
    SumOver(d.keys, d.values)
  }

  /** Counting one more character: the tally of `s + [c]` from the tally of `s`. */
  lemma TallySnoc(s: string, c: char)
    ensures Tally(s + [c]) == Tally(s)[c := (if c in Tally(s) then Tally(s)[c] else 0) + 1]
  {
    assert multiset(s + [c]) == multiset(s) + multiset{c};
    var t, u := Tally(s + [c]), Tally(s)[c := (if c in Tally(s) then Tally(s)[c] else 0) + 1];
    assert forall x :: x in s + [c] <==> x in s || x == c;
    assert t.Keys == u.Keys;
    assert forall x :: x in t ==> t[x] == u[x];
  }

  /** A first-occurrence key list grows only by a character not seen before. */
  lemma FirstOccurrencesSnoc(s: string, c: char)
    ensures FirstOccurrences(s + [c]) == if c in s then FirstOccurrences(s) else FirstOccurrences(s) + [c]
  {
    assert (s + [c])[..|s|] == s;
  }

  lemma {:induction false} SumOverIgnores(keys: seq<char>, values: map<char, nat>, c: char, v: nat)
    requires forall k :: k in keys ==> k in values
    requires c !in keys
    ensures SumOver(keys, values[c := v]) == SumOver(keys, values)
  {
    if keys != [] {
      SumOverIgnores(keys[..|keys| - 1], values, c, v);
    }
  }

  lemma {:induction false} SumOverBump(keys: seq<char>, values: map<char, nat>, c: char)
    requires forall k :: k in keys ==> k in values
    requires Distinct(keys) && c in keys
    ensures SumOver(keys, values[c := values[c] + 1]) == SumOver(keys, values) + 1
  {
    var init, last := keys[..|keys| - 1], keys[|keys| - 1];
    if last == c {
      assert c !in init;
      SumOverIgnores(init, values, c, values[c] + 1);
    } else {
      assert keys == init + [last];
      SumOverBump(init, values, c);
    }
  }

  /** The counts of the table built from `s` add up to the length of `s`. */
  lemma {:induction false} TallySum(s: string)
    ensures SumOver(FirstOccurrences(s), Tally(s)) == |s|
  {
    if s != [] {
      var init, c := s[..|s| - 1], s[|s| - 1];
      assert s == init + [c];
      TallySum(init);
      TallySnoc(init, c);
      FirstOccurrencesSnoc(init, c);
      var keys, values := FirstOccurrences(init), Tally(init);
      if c in init {
        SumOverBump(keys, values, c);
      } else {
        SumOverIgnores(keys, values, c, 1);
        assert (keys + [c])[..|keys|] == keys;
      }
    }
  }

  /** Conservation: the counts of `count_characters(text)` sum to the length of the lower-cased text. */
  lemma CountsSumToLength(text: string)
    ensures Total(CharacterCounts(text)) == |LowerText(text)| == |text|
  {
    TallySum(LowerText(text));
  }

  /** What the table holds: exactly the characters of the lower-cased text, each with its number of occurrences. */
  lemma CountsAreOccurrences(text: string)
    ensures forall c :: c in CharacterCounts(text).values <==> c in LowerText(text)
    ensures forall c :: c in CharacterCounts(text).values ==>
                          CharacterCounts(text).values[c] == multiset(LowerText(text))[c] >= 1
  {
  }

  /** `count_characters("")` is the empty dict. */
  lemma CountsOfEmptyText()
    ensures CharacterCounts("") == Dict([], map[])
  {
  }

  /** No upper-case ASCII letter is ever a key. */
  lemma CountsHaveNoUpperKey(text: string)
    ensures forall c :: c in CharacterCounts(text).keys ==> !IsAsciiUpper(c)
  {
    LowerTextHasNoUpper(text);
  }

  /** Counting a lower-cased text gives the same table: `count_characters(t) == count_characters(t.lower())`. */
  lemma CountsIgnoreCase(text: string)
    ensures CharacterCounts(LowerText(text)) == CharacterCounts(text)
  {
    LowerTextIdempotent(text);
  }

  lemma FirstIndexSnoc(s: string, x: char, c: char)
    requires c in s + [x]
    ensures FirstIndex(s + [x], c) == if c in s then FirstIndex(s, c) else |s|
  {
    if c in s {
      assert (s + [x])[FirstIndex(s, c)] == c;
    } else {
      assert (s + [x])[|s|] == c;
    }
  }

  /** The keys of the table come in the order in which their characters first occur in the text. */
  lemma {:induction false} KeysInFirstOccurrenceOrder(s: string)
    ensures forall i, j :: 0 <= i < j < |FirstOccurrences(s)| ==>
              FirstIndex(s, FirstOccurrences(s)[i]) < FirstIndex(s, FirstOccurrences(s)[j])
  {
    if s != [] {
      var init, c := s[..|s| - 1], s[|s| - 1];
      assert s == init + [c];
      KeysInFirstOccurrenceOrder(init);
      FirstOccurrencesSnoc(init, c);
      var keys := FirstOccurrences(init);
      forall k | 0 <= k < |keys| ensures FirstIndex(s, keys[k]) == FirstIndex(init, keys[k]) < |init| {
        FirstIndexSnoc(init, c, keys[k]);
      }
      if c !in init {
        FirstIndexSnoc(init, c, c);
      }
    }
  }

  /**
   `count_characters(text)`. The defaultdict `counts` is the pair `keys`
   (insertion order) and `values`; `counts[c] += 1` first inserts 0 under a
   missing key, then increments.
   */
  method CountCharacters(text: string) returns (counts: Dict)
    ensures counts == CharacterCounts(text)
    ensures counts.Valid()
    ensures forall c :: c in counts.values <==> c in LowerText(text)
    ensures forall c :: c in counts.values ==> counts.values[c] == multiset(LowerText(text))[c] >= 1
  {
    var lowered := LowerText(text);
    var keys: seq<char> := [];
    var values: map<char, nat> := map[];
    for i := 0 to |lowered|
      invariant keys == FirstOccurrences(lowered[..i])
      invariant values == Tally(lowered[..i])
    {
      var c := lowered[i];
      ghost var seen, before := lowered[..i], values;
      if c !in values {
        keys := keys + [c];
        values := values[c := 0];
      }
      values := values[c := values[c] + 1];
      assert lowered[..i + 1] == seen + [c];
      assert keys == FirstOccurrences(seen + [c]) by {
        FirstOccurrencesSnoc(seen, c);
      }
      assert values == Tally(seen + [c]) by {
        assert values == before[c := (if c in before then before[c] else 0) + 1];
        TallySnoc(seen, c);
      }
    }
    assert lowered[..|lowered|] == lowered;
    counts := Dict(keys, values);
    CountsAreOccurrences(text);
  }
}
