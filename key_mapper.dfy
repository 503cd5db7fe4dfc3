/** The key substitution and key perturbation of the annealing search
    (main.cpp): `apply_key`, `swap_chars`, the three neighbour moves and the
    repeated-swap mutation used on restart and for start keys. */
module KeyMapper {
  import opened Swaps

  /** The number of pairs `apply_key` reads: it stops at the end of the
      shorter key. */
  function CommonLength(keyFrom: string, keyTo: string): nat {
    if |keyFrom| < |keyTo| then |keyFrom| else |keyTo|
  }

  /** The table `apply_key` has built after reading the first `n` pairs:
      `keyFrom[i]` maps to `keyTo[i]`, a later pair replacing an earlier one
      for the same character. */
  function Table(keyFrom: string, keyTo: string, n: nat): map<char, char>
    requires n <= |keyFrom| && n <= |keyTo|
  {
    if n == 0 then map[] else Table(keyFrom, keyTo, n - 1)[keyFrom[n - 1] := keyTo[n - 1]]
  }

  /** One character through a table: untouched when the table has no entry. */
  function Lookup(table: map<char, char>, c: char): char {
    if c in table then table[c] else c
  }

  /** The text `apply_key` returns: every character of the original looked up
      once in the complete table. */
  function Applied(text: string, keyFrom: string, keyTo: string): string {
    var table := Table(keyFrom, keyTo, CommonLength(keyFrom, keyTo));
    seq(|text|, k requires 0 <= k < |text| => Lookup(table, text[k]))
  }

  /** `apply_key`: builds the table pair by pair, then rewrites every
      character of a copy of the text in place. */
  method ApplyKey(ciphertext: string, keyFrom: string, keyTo: string) returns (result: string)
    ensures result == Applied(ciphertext, keyFrom, keyTo)
    ensures |result| == |ciphertext|
  {
    result := ciphertext;
    var keyMap: map<char, char> := map[];
    var i := 0;
    while i < |keyFrom| && i < |keyTo|
      invariant i <= CommonLength(keyFrom, keyTo)
      invariant keyMap == Table(keyFrom, keyTo, i)
    {
      keyMap := keyMap[keyFrom[i] := keyTo[i]];
      i := i + 1;
    }
    var j := 0;
    while j < |result|
      invariant j <= |result| == |ciphertext|
      invariant forall k :: 0 <= k < j ==> result[k] == Lookup(keyMap, ciphertext[k])
      invariant forall k :: j <= k < |result| ==> result[k] == ciphertext[k]
    {
      if result[j] in keyMap {
        result := result[j := keyMap[result[j]]];
      }
      j := j + 1;
    }
  }

  /** The table has an entry exactly for the characters among the pairs read. */
  lemma {:induction false} TableDomain(keyFrom: string, keyTo: string, n: nat, c: char)
    requires n <= |keyFrom| && n <= |keyTo|
    ensures c in Table(keyFrom, keyTo, n) <==> c in keyFrom[..n]
  {
    if n > 0 {
      assert keyFrom[..n] == keyFrom[..n - 1] + [keyFrom[n - 1]];
      TableDomain(keyFrom, keyTo, n - 1, c);
    }
  }

  /** With no repeated character in `keyFrom`, the entry for `keyFrom[i]` is
      `keyTo[i]`. */
  lemma {:induction false} TableAt(keyFrom: string, keyTo: string, n: nat, i: nat)
    requires n <= |keyFrom| && n <= |keyTo| && i < n
    requires Distinct(keyFrom)
    ensures keyFrom[i] in Table(keyFrom, keyTo, n)
    ensures Table(keyFrom, keyTo, n)[keyFrom[i]] == keyTo[i]
  {
    if i < n - 1 {
      TableAt(keyFrom, keyTo, n - 1, i);
    }
  }

  /** A table built from one key against itself maps every character to
      itself. */
  lemma {:induction false} TableOfSameKey(key: string, n: nat, c: char)
    requires n <= |key|
    ensures c in Table(key, key, n) ==> Table(key, key, n)[c] == c
  {
    if n > 0 {
      TableOfSameKey(key, n - 1, c);
    }
  }

  /** `apply_key` keeps the length, and leaves every character that is not
      among the pairs read exactly as it was. */
  lemma ApplyKeyKeepsUnmapped(text: string, keyFrom: string, keyTo: string, k: nat)
    requires k < |text|
    ensures |Applied(text, keyFrom, keyTo)| == |text|
    ensures text[k] !in keyFrom[..CommonLength(keyFrom, keyTo)] ==>
      Applied(text, keyFrom, keyTo)[k] == text[k]
  {
    TableDomain(keyFrom, keyTo, CommonLength(keyFrom, keyTo), text[k]);
  }

  /** A character that is `keyFrom[i]` for a key with no repeats becomes
      `keyTo[i]`. */
  lemma ApplyKeyMapsPair(text: string, keyFrom: string, keyTo: string, k: nat, i: nat)
    requires k < |text| && i < CommonLength(keyFrom, keyTo)
    requires Distinct(keyFrom) && text[k] == keyFrom[i]
    ensures Applied(text, keyFrom, keyTo)[k] == keyTo[i]
  {
    TableAt(keyFrom, keyTo, CommonLength(keyFrom, keyTo), i);
  }

  /** Substituting a key for itself changes nothing. */
  lemma ApplyKeySameKey(text: string, key: string)
    ensures Applied(text, key, key) == text
  {
    var a := Applied(text, key, key);
    forall k | 0 <= k < |text| ensures a[k] == text[k] {
      TableOfSameKey(key, CommonLength(key, key), text[k]);
    }
  }

  /** Going from `a` to `b` and back from `b` to `a` restores the text when
      `a` and `b` are arrangements of the same alphabet without repeats:
      every character is rewritten once from the original, never chained. */
  lemma ApplyKeyRoundTrip(text: string, a: string, b: string)
    requires Distinct(a) && IsPermutationOf(b, a)
    ensures Applied(Applied(text, a, b), b, a) == text
  {
    PermutationOfDistinct(b, a);
    var mid := Applied(text, a, b);
    var back := Applied(mid, b, a);
    assert CommonLength(a, b) == |a| && CommonLength(b, a) == |a|;
    assert a[..|a|] == a && b[..|b|] == b;
    forall k | 0 <= k < |text| ensures back[k] == text[k] {
      var c := text[k];
      if c in a {
        var i :| 0 <= i < |a| && a[i] == c;
        ApplyKeyMapsPair(text, a, b, k, i);
        ApplyKeyMapsPair(mid, b, a, k, i);
      } else {
        assert c !in multiset(a);
        assert c !in b;
        ApplyKeyKeepsUnmapped(text, a, b, k);
        ApplyKeyKeepsUnmapped(mid, b, a, k);
      }
    }
  }

  /** `swap_chars`: exchanges two characters of the string when both indices
      are in range, and otherwise leaves it as it was. */
  method SwapChars(str: string, a: int, b: int) returns (s: string)
    ensures s == Swapped(str, a, b)
    ensures |s| == |str| && multiset(s) == multiset(str)
    ensures InRange(str, a, b) ==>
      s[a] == str[b] && s[b] == str[a] &&
      forall k :: 0 <= k < |str| && k != a && k != b ==> s[k] == str[k]
    ensures !InRange(str, a, b) ==> s == str
  {
    SwappedProperties(str, a, b);
    if 0 <= a < |str| && 0 <= b < |str| {
      s := str[a := str[b]][b := str[a]];
    } else {
      s := str;
    }
  }

  /** The three-position rotation of the neighbour generator, written as the
      three assignments are executed: the second reads the key after the
      first has written it, so coinciding positions matter. */
  function Rotated(key: string, p1: int, p2: int, p3: int): string
    requires 0 <= p1 < |key| && 0 <= p2 < |key| && 0 <= p3 < |key|
  {
    var k1 := key[p1 := key[p2]];
    var k2 := k1[p2 := k1[p3]];
    k2[p3 := key[p1]]
  }

  /** The rotation is a swap of `p1, p2` followed by a swap of `p2, p3`, for
      every way the positions may coincide. */
  lemma RotatedIsTwoSwaps(key: string, p1: int, p2: int, p3: int)
    requires 0 <= p1 < |key| && 0 <= p2 < |key| && 0 <= p3 < |key|
    ensures Rotated(key, p1, p2, p3) == Swapped(Swapped(key, p1, p2), p2, p3)
  {
    var r := Rotated(key, p1, p2, p3);
    var s := Swapped(Swapped(key, p1, p2), p2, p3);
    assert |r| == |s|;
    forall k | 0 <= k < |key| ensures r[k] == s[k] {
    }
  }

  /** The rotation rearranges the key. */
  lemma RotatedPermutes(key: string, p1: int, p2: int, p3: int)
    requires 0 <= p1 < |key| && 0 <= p2 < |key| && 0 <= p3 < |key|
    ensures IsPermutationOf(Rotated(key, p1, p2, p3), key)
  {
    RotatedIsTwoSwaps(key, p1, p2, p3);
    SwappedProperties(key, p1, p2);
    SwappedProperties(Swapped(key, p1, p2), p2, p3);
  }

  /** A position drawn by the search's `char_dist` (0..25). */
  predicate IsPosition(p: int) {
    0 <= p < 26
  }

  /** The neighbour the search derives from `key`: below 0.8 one swap of
      `p1, p2`; below 0.9 the swap of `p1, p2` and then of `p3, p4`;
      otherwise the rotation of `p1, p2, p3`. The search draws positions in
      0..25 and its keys have 26 letters; a rotation whose positions fall
      outside a shorter key (undefined in the source) is taken to leave the
      key as it is. */
  function Neighbor(key: string, r: real, p1: int, p2: int, p3: int, p4: int): string {
    if r < 0.8 then Swapped(key, p1, p2)
    else if r < 0.9 then Swapped(Swapped(key, p1, p2), p3, p4)
    else if 0 <= p1 < |key| && 0 <= p2 < |key| && 0 <= p3 < |key| then Rotated(key, p1, p2, p3)
    else key
  }

  /** Every neighbour move rearranges the key; the single swap changes the
      key at its two positions and nowhere else. */
  lemma NeighborPermutes(key: string, r: real, p1: int, p2: int, p3: int, p4: int)
    ensures IsPermutationOf(Neighbor(key, r, p1, p2, p3, p4), key)
    ensures r < 0.8 ==> forall k :: 0 <= k < |key| && k != p1 && k != p2 ==>
      Neighbor(key, r, p1, p2, p3, p4)[k] == key[k]
  {
    SwappedProperties(key, p1, p2);
    if r < 0.8 {
    } else if r < 0.9 {
      SwappedProperties(Swapped(key, p1, p2), p3, p4);
    } else if 0 <= p1 < |key| && 0 <= p2 < |key| && 0 <= p3 < |key| {
      RotatedPermutes(key, p1, p2, p3);
    }
  }

  /** The neighbour generation of one iteration, as the search runs it on a
      copy of the current key. The swap moves draw two different positions
      (the source draws again until they differ). */
  method NeighborKey(currentKey: string, r: real, p1: int, p2: int, p3: int, p4: int)
    returns (neighborKey: string)
    requires 26 <= |currentKey|
    requires IsPosition(p1) && IsPosition(p2) && IsPosition(p3) && IsPosition(p4)
    requires r < 0.9 ==> p1 != p2
    requires 0.8 <= r < 0.9 ==> p3 != p4
    ensures neighborKey == Neighbor(currentKey, r, p1, p2, p3, p4)
    ensures IsPermutationOf(neighborKey, currentKey)
  {
    NeighborPermutes(currentKey, r, p1, p2, p3, p4);
    neighborKey := currentKey;
    if r < 0.8 {
      neighborKey := SwapChars(neighborKey, p1, p2);
    } else if r < 0.9 {
      neighborKey := SwapChars(neighborKey, p1, p2);
      neighborKey := SwapChars(neighborKey, p3, p4);
    } else {
      var temp := neighborKey[p1];
      neighborKey := neighborKey[p1 := neighborKey[p2]];
      neighborKey := neighborKey[p2 := neighborKey[p3]];
      neighborKey := neighborKey[p3 := temp];
    }
  }

  /** The key after the given swaps, applied one after another from the
      first; positions may coincide, giving a swap that changes nothing. */
  function Mutated(key: string, swaps: seq<(int, int)>): string
    decreases |swaps|
  {
    if swaps == [] then key else Mutated(Swapped(key, swaps[0].0, swaps[0].1), swaps[1..])
  }

  /** Any sequence of swaps rearranges the key. */
  lemma {:induction false} MutatedPermutes(key: string, swaps: seq<(int, int)>)
    ensures IsPermutationOf(Mutated(key, swaps), key)
    decreases |swaps|
  {
    if swaps != [] {
      SwappedProperties(key, swaps[0].0, swaps[0].1);
      MutatedPermutes(Swapped(key, swaps[0].0, swaps[0].1), swaps[1..]);
    }
  }

  /** The mutation loop: 16 swaps of the best key on a restart
      (main.cpp:258-263), 5 swaps of the initial key for each start
      (main.cpp:320-326); the number of swaps is `|swaps|`. */
  method MutateKey(key: string, swaps: seq<(int, int)>) returns (mutated: string)
    ensures mutated == Mutated(key, swaps)
    ensures IsPermutationOf(mutated, key)
  {
    MutatedPermutes(key, swaps);
    mutated := key;
    for i := 0 to |swaps|
      invariant Mutated(mutated, swaps[i..]) == Mutated(key, swaps)
    {
      assert swaps[i..][0] == swaps[i] && swaps[i..][1..] == swaps[i + 1..];
      mutated := SwapChars(mutated, swaps[i].0, swaps[i].1);
    }
  }
}
