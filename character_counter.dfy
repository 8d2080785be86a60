/** The character counter of src/huffman/character_counter.py: a dictionary
    from character to count, filled in place by add_text. The dictionary's
    iteration order (insertion order of its keys) is kept as a second field,
    because it later seeds the tie-breaking of tree construction. */
module Counting {

  predicate Distinct(s: seq<char>) {
    forall i, j :: 0 <= i < j < |s| ==> s[i] != s[j]
  }

  /** The count stored for `c`, or 0 when `c` was never seen. */
  function CountOf(m: map<char, nat>, c: char): nat {
    if c in m then m[c] else 0
  }

  /** One iteration of add_text's loop on the dictionary. */
  function Bump(m: map<char, nat>, c: char): map<char, nat> {
    if c !in m then m[c := 1] else m[c := m[c] + 1]
  }

  /** The dictionary after counting every character of `s`, in order. */
  function Tally(m: map<char, nat>, s: seq<char>): map<char, nat> {
    if s == [] then m else Bump(Tally(m, s[..|s| - 1]), s[|s| - 1])
  }

  /** The key order after counting `s`: a character is appended when it is
      first seen and never moved afterwards. */
  function FirstSeen(keys: seq<char>, s: seq<char>): seq<char> {
    if s == [] then keys
    else
      var before := FirstSeen(keys, s[..|s| - 1]);
      if s[|s| - 1] in before then before else before + [s[|s| - 1]]
  }

  /** The (key, count) pairs of the keys, in order. */
  function ItemsOf(keys: seq<char>, m: map<char, nat>): (items: seq<(char, nat)>)
    requires forall i :: 0 <= i < |keys| ==> keys[i] in m
    ensures |items| == |keys|
    ensures forall i :: 0 <= i < |items| ==> items[i] == (keys[i], m[keys[i]])
  {
    if keys == [] then []
    else ItemsOf(keys[..|keys| - 1], m) + [(keys[|keys| - 1], m[keys[|keys| - 1]])]
  }

  /** The sum of the counts stored under `keys`. */
  function SumOver(keys: seq<char>, m: map<char, nat>): nat {
    if keys == [] then 0 else SumOver(keys[..|keys| - 1], m) + CountOf(m, keys[|keys| - 1])
  }

  /** Counting `s` adds exactly the number of occurrences of each character to
      its count, adds the characters of `s` as keys and removes none, and
      keeps every stored count at least 1. */
  lemma TallyCount(m: map<char, nat>, s: seq<char>)
    ensures forall c :: CountOf(Tally(m, s), c) == CountOf(m, c) + multiset(s)[c]
    ensures Tally(m, s).Keys == m.Keys + set c | c in s
    ensures (forall c :: c in m ==> m[c] >= 1) ==> forall c :: c in Tally(m, s) ==> Tally(m, s)[c] >= 1
  {
    TallyOccurrences(m, s);
    TallyKeys(m, s);
    if forall c :: c in m ==> m[c] >= 1 {
      TallyPositive(m, s);
    }
  }

  lemma {:induction false} TallyOccurrences(m: map<char, nat>, s: seq<char>)
    ensures forall c :: CountOf(Tally(m, s), c) == CountOf(m, c) + multiset(s)[c]
  {
    if s != [] {
      var init, x := s[..|s| - 1], s[|s| - 1];
      TallyOccurrences(m, init);
      BumpCount(Tally(m, init), x);
      assert s == init + [x];
    }
  }

  lemma {:induction false} TallyKeys(m: map<char, nat>, s: seq<char>)
    ensures Tally(m, s).Keys == m.Keys + set c | c in s
  {
    if s != [] {
      var init, x := s[..|s| - 1], s[|s| - 1];
      TallyKeys(m, init);
      BumpCount(Tally(m, init), x);
      assert s == init + [x];
      assert (set c | c in s) == (set c | c in init) + {x};
    }
  }

  lemma {:induction false} TallyPositive(m: map<char, nat>, s: seq<char>)
    requires forall c :: c in m ==> m[c] >= 1
    ensures forall c :: c in Tally(m, s) ==> Tally(m, s)[c] >= 1
  {
    if s != [] {
      var init := s[..|s| - 1];
      TallyPositive(m, init);
      BumpCount(Tally(m, init), s[|s| - 1]);
    }
  }

  /** One bump adds 1 to the count of its character only, and adds that
      character as a key with a count of at least 1. */
  lemma BumpCount(m: map<char, nat>, x: char)
    ensures forall c :: CountOf(Bump(m, x), c) == CountOf(m, c) + (if c == x then 1 else 0)
    ensures Bump(m, x).Keys == m.Keys + {x}
    ensures x in Bump(m, x) && Bump(m, x)[x] >= 1
    ensures forall c :: c in m ==> c in Bump(m, x) && Bump(m, x)[c] >= m[c]
  {
  }

  /** Counting `a` and then `b` gives the counts of counting `a + b`. */
  lemma {:induction false} TallyAppend(m: map<char, nat>, a: seq<char>, b: seq<char>)
    ensures Tally(Tally(m, a), b) == Tally(m, a + b)
    decreases |b|
  {
    if b != [] {
      TallyAppend(m, a, b[..|b| - 1]);
      assert (a + b)[..|a + b| - 1] == a + b[..|b| - 1];
      assert (a + b)[|a + b| - 1] == b[|b| - 1];
    } else {
      assert a + b == a;
    }
  }

  /** The key order after `a` then `b` is the key order after `a + b`. */
  lemma {:induction false} FirstSeenAppend(keys: seq<char>, a: seq<char>, b: seq<char>)
    ensures FirstSeen(FirstSeen(keys, a), b) == FirstSeen(keys, a + b)
    decreases |b|
  {
    if b != [] {
      FirstSeenAppend(keys, a, b[..|b| - 1]);
      assert (a + b)[..|a + b| - 1] == a + b[..|b| - 1];
      assert (a + b)[|a + b| - 1] == b[|b| - 1];
    } else {
      assert a + b == a;
    }
  }

  /** The old keys stay in front, the new keys are the unseen characters of
      `s`, and no key appears twice. */
  lemma {:induction false} FirstSeenKeys(keys: seq<char>, s: seq<char>)
    requires Distinct(keys)
    ensures |keys| <= |FirstSeen(keys, s)| && FirstSeen(keys, s)[..|keys|] == keys
    ensures Distinct(FirstSeen(keys, s))
    ensures forall c :: c in FirstSeen(keys, s) <==> c in keys || c in s
  {
    if s != [] {
      var init := s[..|s| - 1];
      FirstSeenKeys(keys, init);
      assert s == init + [s[|s| - 1]];
      var before := FirstSeen(keys, init);
      if s[|s| - 1] !in before {
        assert (before + [s[|s| - 1]])[..|keys|] == before[..|keys|];
      }
    }
  }

  /** Each key occurs in `s` before the first occurrence of any later key. */
  ghost predicate InFirstOccurrenceOrder(keys: seq<char>, s: seq<char>) {
    forall i, j :: 0 <= i < j < |keys| ==>
      exists k :: 0 <= k < |s| && s[k] == keys[i] && keys[j] !in s[..k]
  }

  /** Starting from no keys, the keys are the characters of `s` in order of
      first occurrence. */
  lemma {:induction false} FirstSeenOrder(s: seq<char>)
    ensures InFirstOccurrenceOrder(FirstSeen([], s), s)
  {
    if s != [] {
      var init, c := s[..|s| - 1], s[|s| - 1];
      FirstSeenOrder(init);
      FirstSeenKeys([], init);
      assert s == init + [c];
      OrderKept(s, init, c);
    }
  }

  /** One more character keeps the keys in order of first occurrence. */
  lemma OrderKept(s: seq<char>, init: seq<char>, c: char)
    requires s == init + [c]
    requires InFirstOccurrenceOrder(FirstSeen([], init), init)
    requires Distinct(FirstSeen([], init))
    requires forall x :: x in FirstSeen([], init) <==> x in init
    ensures InFirstOccurrenceOrder(FirstSeen([], s), s)
  {
    forall i, j | 0 <= i < j < |FirstSeen([], s)|
      ensures exists k :: 0 <= k < |s| && s[k] == FirstSeen([], s)[i] && FirstSeen([], s)[j] !in s[..k]
    {
      OrderStep(s, init, c, i, j);
    }
  }

  /** One pair of keys after one more character `c`. */
  lemma OrderStep(s: seq<char>, init: seq<char>, c: char, i: nat, j: nat)
    requires s == init + [c]
    requires InFirstOccurrenceOrder(FirstSeen([], init), init)
    requires Distinct(FirstSeen([], init))
    requires forall x :: x in FirstSeen([], init) <==> x in init
    requires i < j < |FirstSeen([], s)|
    ensures exists k :: 0 <= k < |s| && s[k] == FirstSeen([], s)[i] && FirstSeen([], s)[j] !in s[..k]
  {
    assert s[..|s| - 1] == init;
    var before := FirstSeen([], init);
    var r := FirstSeen([], s);
    if j < |before| {
      var k :| 0 <= k < |init| && init[k] == before[i] && before[j] !in init[..k];
      assert s[k] == r[i] && s[..k] == init[..k];
    } else {
      assert c !in before && r == before + [c] && r[j] == c;
      assert before[i] in init;
      var k :| 0 <= k < |init| && init[k] == before[i];
      assert s[..k] == init[..k];
      assert s[k] == r[i] && c !in s[..k];
    }
  }

  lemma {:induction false} SumOverUpdate(keys: seq<char>, m: map<char, nat>, c: char, n: nat)
    requires Distinct(keys)
    ensures SumOver(keys, m[c := n]) ==
      if c in keys then SumOver(keys, m) - CountOf(m, c) + n else SumOver(keys, m)
    ensures c in keys ==> SumOver(keys, m) >= CountOf(m, c)
  {
    if keys != [] {
      var init := keys[..|keys| - 1];
      assert Distinct(init);
      SumOverUpdate(init, m, c, n);
      assert c in keys <==> c in init || c == keys[|keys| - 1];
    }
  }

  /** Counting one more character adds one to the sum over the keys. */
  lemma BumpTotal(keys: seq<char>, m: map<char, nat>, c: char)
    requires Distinct(keys) && forall x :: x in m <==> x in keys
    ensures SumOver(FirstSeen(keys, [c]), Bump(m, c)) == SumOver(keys, m) + 1
  {
    assert [c][..0] == [];
    SumOverUpdate(keys, m, c, CountOf(m, c) + 1);
    if c !in keys {
      assert FirstSeen(keys, [c]) == keys + [c];
      assert (keys + [c])[..|keys|] == keys;
    }
  }

  /** The counts stored under the keys add up to the number of characters
      counted so far. */
  lemma {:induction false} TallyTotal(keys: seq<char>, m: map<char, nat>, s: seq<char>)
    requires Distinct(keys) && forall c :: c in m <==> c in keys
    ensures SumOver(FirstSeen(keys, s), Tally(m, s)) == SumOver(keys, m) + |s|
  {
    if s != [] {
      var init := s[..|s| - 1];
      var c := s[|s| - 1];
      TallyTotal(keys, m, init);
      TallyKeys(m, init);
      FirstSeenKeys(keys, init);
      var before := FirstSeen(keys, init);
      var counts := Tally(m, init);
      assert forall x :: x in counts <==> x in before;
      BumpTotal(before, counts, c);
      assert [c][..0] == [];
      assert FirstSeen(keys, s) == FirstSeen(before, [c]);
    }
  }

  /** One counted character keeps the keys distinct, equal to the
      dictionary's keys, and every count positive. */
  lemma CountStep(m: map<char, nat>, keys: seq<char>, c: char)
    requires Distinct(keys) && (forall x :: x in m <==> x in keys) && (forall x :: x in m ==> m[x] >= 1)
    ensures var keys' := if c in m then keys else keys + [c];
      Distinct(keys') && (forall x :: x in Bump(m, c) <==> x in keys')
      && (forall x :: x in Bump(m, c) ==> Bump(m, c)[x] >= 1)
  {
  }

  lemma BumpMatches(m: map<char, nat>, c: char, after: map<char, nat>)
    requires (c !in m && after == m[c := 1]) || (c in m && after == m[c := m[c] + 1])
    ensures after == Bump(m, c)
  {
  }

  /** Counting one more character of `data` is one more step of Tally and
      FirstSeen. */
  lemma PrefixStep(m: map<char, nat>, keys: seq<char>, data: seq<char>, i: nat)
    requires i < |data|
    ensures Tally(m, data[..i + 1]) == Bump(Tally(m, data[..i]), data[i])
    ensures FirstSeen(keys, data[..i + 1]) ==
      var before := FirstSeen(keys, data[..i]);
      if data[i] in before then before else before + [data[i]]
  {
    assert data[..i + 1][..i] == data[..i];
  }

  /** CharacterCounter: `characters` is the dictionary and `keys` its
      iteration order. */
  class CharacterCounter {
    var characters: map<char, nat>
    var keys: seq<char>

    ghost predicate Valid()
      reads this
    {
      Distinct(keys)
      && (forall c :: c in characters <==> c in keys)
      && (forall c :: c in characters ==> characters[c] >= 1)
    }

    /** A fresh counter holds an empty dictionary. */
    constructor ()
      ensures Valid() && characters == map[] && keys == []
    {
      characters := map[];
      keys := [];
    }

    /** add_text: counts every character of `data`, in order. */
    method AddText(data: seq<char>)
      requires Valid()
      modifies this
      ensures Valid()
      ensures characters == Tally(old(characters), data)
      ensures keys == FirstSeen(old(keys), data)
    {
      var i := 0;
      while i < |data|
        invariant 0 <= i <= |data|
        invariant Valid()
        invariant characters == Tally(old(characters), data[..i])
        invariant keys == FirstSeen(old(keys), data[..i])
      {
        PrefixStep(old(characters), old(keys), data, i);
        Count(data[i]);
        i := i + 1;
      }
      assert data[..|data|] == data;
    }

    /** One iteration of add_text's loop: a new character gets count 1 and
        joins the key order, a known one has its count raised by 1. */
    method Count(c: char)
      requires Valid()
      modifies this
      ensures Valid()
      ensures characters == Bump(old(characters), c)
      ensures keys == if c in old(keys) then old(keys) else old(keys) + [c]
    {
      CountStep(characters, keys, c);
      ghost var before := characters;
      if c !in characters {
        characters := characters[c := 1];
        keys := keys + [c];
      } else {
        characters := characters[c := characters[c] + 1];
      }
      BumpMatches(before, c, characters);
    }

    /** get_characters().items(): the (key, count) pairs in the dictionary's
        iteration order. */
    function Items(): (items: seq<(char, nat)>)
      reads this
      requires Valid()
      ensures |items| == |keys|
      ensures forall i :: 0 <= i < |items| ==> items[i].0 == keys[i] && items[i].1 >= 1
      ensures forall i :: 0 <= i < |items| ==> items[i].1 == CountOf(characters, keys[i])
    {
      ItemsOf(keys, characters)
    }

    /** occurences: the stored count, or 0 for a character never seen. */
    function Occurrences(c: char): (n: nat)
      reads this
      requires Valid()
      ensures n > 0 <==> c in characters
      ensures c in characters ==> n == characters[c]
    {
      if c in characters then characters[c] else 0
    }
  }
}
