/** Preparing text for frequency analysis (helper.h, process.cpp): reducing a
    text to its upper-cased letters, and counting its n-grams with a sliding
    window into a table that accumulates across calls. */
module TextStats {
  import opened CharClass

  // ---------------------------------------------------------------------
  // normalize_text
  // ---------------------------------------------------------------------

  /** The letters of `text`, upper-cased, in their original order; every
      other character is dropped. */
  function Normalized(text: string): string
    decreases |text|
  {
    if text == [] then []
    else
      var last := text[|text| - 1];
      Normalized(text[..|text| - 1]) + (if IsAlpha(last) then [ToUpper(last)] else [])
  }

  /** `normalize_text`: appends the upper-case form of each letter. */
  method NormalizeText(text: string) returns (result: string)
    ensures result == Normalized(text)
    ensures AllUpper(result)
    ensures |result| == LetterCount(text) <= |text|
  {
    result := "";
    for i := 0 to |text|
      invariant result == Normalized(text[..i])
    {
      var c := text[i];
      assert text[..i + 1][..i] == text[..i];
      if IsAlpha(c) {
        result := result + [ToUpper(c)];
      }
    }
    assert text[..|text|] == text;
    NormalizedUpper(text);
    NormalizedLength(text);
  }

  /** The number of letters in `text`, counted from the front. */
  function LetterCount(text: string): (r: nat)
    ensures r <= |text|
  {
    if text == [] then 0 else (if IsAlpha(text[0]) then 1 else 0) + LetterCount(text[1..])
  }

  lemma {:induction false} LetterCountAppend(a: string, b: string)
    ensures LetterCount(a + b) == LetterCount(a) + LetterCount(b)
    decreases |a|
  {
    if a != [] {
      assert (a + b)[1..] == a[1..] + b;
      LetterCountAppend(a[1..], b);
    } else {
      assert a + b == b;
    }
  }

  /** Normalisation works character by character: normalising a
      concatenation concatenates the normalised parts. Together with
      NormalizedChar this says the output is the input's letters,
      upper-cased, in order. */
  lemma {:induction false} NormalizedAppend(a: string, b: string)
    ensures Normalized(a + b) == Normalized(a) + Normalized(b)
    decreases |b|
  {
    if b == [] {
      assert a + b == a;
    } else {
      var b' := b[..|b| - 1];
      assert (a + b)[..|a + b| - 1] == a + b';
      assert (a + b)[|a + b| - 1] == b[|b| - 1];
      NormalizedAppend(a, b');
    }
  }

  /** A single character is kept, upper-cased, exactly when it is a letter. */
  lemma NormalizedChar(c: char)
    ensures Normalized([c]) == if IsAlpha(c) then [ToUpper(c)] else []
  {
    assert [c][..0] == [];
  }

  /** The output holds only the letters A..Z. */
  lemma {:induction false} NormalizedUpper(text: string)
    ensures AllUpper(Normalized(text))
    decreases |text|
  {
    if text != [] {
      NormalizedUpper(text[..|text| - 1]);
      if IsAlpha(text[|text| - 1]) {
        ToUpperOfAlpha(text[|text| - 1]);
      }
    }
  }

  /** The output has one character per letter of the input. */
  lemma {:induction false} NormalizedLength(text: string)
    ensures |Normalized(text)| == LetterCount(text)
    decreases |text|
  {
    if text != [] {
      var init := text[..|text| - 1];
      var last := text[|text| - 1];
      NormalizedLength(init);
      assert text == init + [last];
      LetterCountAppend(init, [last]);
      assert LetterCount([last]) == if IsAlpha(last) then 1 else 0 by {
        assert [last][1..] == [];
      }
    }
  }

  /** A text is its own normalisation exactly when it consists of upper-case
      letters only. */
  lemma {:induction false} NormalizedFixpoint(text: string)
    ensures Normalized(text) == text <==> AllUpper(text)
    decreases |text|
  {
    if AllUpper(text) {
      if text != [] {
        var init := text[..|text| - 1];
        assert AllUpper(init);
        NormalizedFixpoint(init);
        assert text == init + [text[|text| - 1]];
      }
    }
    NormalizedUpper(text);
  }

  /** Normalising twice is normalising once. */
  lemma NormalizedIdempotent(text: string)
    ensures Normalized(Normalized(text)) == Normalized(text)
  {
    NormalizedUpper(text);
    NormalizedFixpoint(Normalized(text));
  }

  // ---------------------------------------------------------------------
  // count_frequencies
  // ---------------------------------------------------------------------

  /** The count a table holds for `w`; `operator[]` reads a missing key as 0. */
  function Get(table: map<string, int>, w: string): int {
    if w in table then table[w] else 0
  }

  /** `map[w]++`: inserts `w` with count 1 if missing. */
  function Inc(table: map<string, int>, w: string): (r: map<string, int>)
    ensures r.Keys == table.Keys + {w}
    ensures Get(r, w) == Get(table, w) + 1
    ensures forall v :: v != w ==> Get(r, v) == Get(table, v)
  {
    table[w := Get(table, w) + 1]
  }

  /** The table after incrementing each string of `ws` in turn. */
  function Added(table: map<string, int>, ws: seq<string>): map<string, int>
    decreases |ws|
  {
    if ws == [] then table else Inc(Added(table, ws[..|ws| - 1]), ws[|ws| - 1])
  }

  /** The length-`n` windows of `text`, left to right: `text[k..k+n]` for
      every `k` in `0..|text|-n`; none when `n <= 0` or the text is shorter
      than `n`. */
  function Windows(text: string, n: int): (ws: seq<string>)
    ensures |ws| == if n <= 0 || |text| < n then 0 else |text| - n + 1
  {
    if n <= 0 || |text| < n then []
    else seq(|text| - n + 1, k requires 0 <= k < |text| - n + 1 => text[k..k + n])
  }

  /** The `k`-th window starts at position `k`. */
  lemma WindowAt(text: string, n: int, k: int)
    requires 0 <= k < |Windows(text, n)|
    ensures n >= 1 && k + n <= |text| && Windows(text, n)[k] == text[k..k + n]
  {
  }

  /** Where the window buffer starts after `i` characters have been read:
      it holds the last `min(i, n - 1)` of them, or all of them when `n <= 0`
      (then `window.size() == n` never holds and nothing is ever erased). */
  function WindowStart(i: nat, n: int): nat {
    if n <= 0 || i < n - 1 then 0 else i - (n - 1)
  }

  /** Slicing a prefix of `s` within the prefix is slicing `s`. */
  lemma SliceOfPrefix(s: string, m: nat, a: nat, b: nat)
    requires a <= b <= m <= |s|
    ensures s[..m][a..b] == s[a..b]
  {
  }

  /** One more character adds at most one window, the one ending there. */
  lemma WindowsSnoc(text: string, i: nat, n: int)
    requires i < |text|
    ensures Windows(text[..i + 1], n) ==
      if n >= 1 && i + 1 >= n then Windows(text[..i], n) + [text[i + 1 - n..i + 1]]
      else Windows(text[..i], n)
  {
    if n >= 1 && i + 1 >= n {
      var ws := Windows(text[..i + 1], n);
      var vs := Windows(text[..i], n);
      var last := text[i + 1 - n..i + 1];
      forall k | 0 <= k < |vs| ensures ws[k] == vs[k] {
        WindowAt(text[..i + 1], n, k);
        WindowAt(text[..i], n, k);
        SliceOfPrefix(text, i + 1, k, k + n);
        SliceOfPrefix(text, i, k, k + n);
      }
      WindowAt(text[..i + 1], n, |vs|);
      SliceOfPrefix(text, i + 1, i + 1 - n, i + 1);
      assert ws[|vs|] == last;
      assert ws == vs + [last];
    }
  }

  /** Pushing the next character extends the buffer's slice by one. */
  lemma SliceExtend(s: string, a: nat, b: nat)
    requires a <= b < |s|
    ensures s[a..b] + [s[b]] == s[a..b + 1]
  {
  }

  /** Erasing the buffer's first character moves its start by one. */
  lemma SliceDropFirst(s: string, a: nat, b: nat)
    requires a < b <= |s|
    ensures s[a..b][1..] == s[a + 1..b]
  {
  }

  /** `count_frequencies`: slides a buffer over `text`; each time it reaches
      `n` characters the window is counted and its first character dropped.
      The table is updated in place: existing entries are incremented and
      never removed. */
  method CountFrequencies(table: map<string, int>, text: string, n: int) returns (counts: map<string, int>)
    ensures counts == Added(table, Windows(text, n))
    ensures counts.Keys == table.Keys + set w | w in Windows(text, n)
    ensures forall w :: Get(counts, w) == Get(table, w) + multiset(Windows(text, n))[w]
    ensures forall w :: w in counts && w !in table ==> |w| == n
  {
    counts := table;
    var window: string := "";
    for i := 0 to |text|
      invariant window == text[WindowStart(i, n)..i]
      invariant n >= 1 ==> |window| <= n - 1
      invariant counts == Added(table, Windows(text[..i], n))
    {
      SlideStep(table, text, i, n, window, counts);
      window := window + [text[i]];
      if |window| == n {
        counts := Inc(counts, window);
        window := window[1..];
      }
    }
    assert text[..|text|] == text;
    CountedTable(table, text, n);
  }

  /** One iteration of the sliding window keeps the loop's invariant: the
      buffer holds the last `min(i, n - 1)` characters read, and the table
      has counted exactly the windows that end within them. */
  lemma SlideStep(table: map<string, int>, text: string, i: nat, n: int, window: string, counts: map<string, int>)
    requires i < |text|
    requires window == text[WindowStart(i, n)..i]
    requires n >= 1 ==> |window| <= n - 1
    requires counts == Added(table, Windows(text[..i], n))
    ensures var pushed := window + [text[i]];
      if |pushed| == n then
        && pushed[1..] == text[WindowStart(i + 1, n)..i + 1]
        && Inc(counts, pushed) == Added(table, Windows(text[..i + 1], n))
      else
        && pushed == text[WindowStart(i + 1, n)..i + 1]
        && (n >= 1 ==> |pushed| <= n - 1)
        && counts == Added(table, Windows(text[..i + 1], n))
  {
    var pushed := window + [text[i]];
    ghost var counted := Windows(text[..i], n);
    WindowsSnoc(text, i, n);
    SliceExtend(text, WindowStart(i, n), i);
    assert pushed == text[WindowStart(i, n)..i + 1];
    if |pushed| == n {
      assert n >= 1 && i + 1 >= n && WindowStart(i, n) == i + 1 - n;
      assert Windows(text[..i + 1], n) == counted + [pushed];
      AddedSnoc(table, counted, pushed);
      SliceDropFirst(text, WindowStart(i, n), i + 1);
    } else {
      assert !(n >= 1 && i + 1 >= n);
      assert Windows(text[..i + 1], n) == counted;
    }
  }

  /** Counting one more window increments its entry. */
  lemma AddedSnoc(table: map<string, int>, ws: seq<string>, w: string)
    ensures Added(table, ws + [w]) == Inc(Added(table, ws), w)
  {
    assert (ws + [w])[..|ws|] == ws;
  }

  /** The counted table in terms of counts and keys. */
  lemma CountedTable(table: map<string, int>, text: string, n: int)
    ensures Added(table, Windows(text, n)).Keys == table.Keys + set w | w in Windows(text, n)
    ensures forall w :: Get(Added(table, Windows(text, n)), w) == Get(table, w) + multiset(Windows(text, n))[w]
    ensures forall w :: w in Added(table, Windows(text, n)) && w !in table ==> |w| == n
  {
    AddedCounts(table, Windows(text, n));
    WindowLengths(text, n);
  }

  /** Incrementing each string of `ws` adds exactly its number of
      occurrences in `ws` to its count and leaves every other entry alone. */
  lemma {:induction false} AddedGet(table: map<string, int>, ws: seq<string>, w: string)
    ensures Get(Added(table, ws), w) == Get(table, w) + multiset(ws)[w]
    decreases |ws|
  {
    if ws != [] {
      var init := ws[..|ws| - 1];
      AddedGet(table, init, w);
      assert ws == init + [ws[|ws| - 1]];
      assert multiset(ws) == multiset(init) + multiset{ws[|ws| - 1]};
    }
  }

  /** The keys afterwards are the old keys and the strings of `ws`: no entry
      is removed. */
  lemma {:induction false} AddedKeys(table: map<string, int>, ws: seq<string>)
    ensures Added(table, ws).Keys == table.Keys + set w | w in ws
    decreases |ws|
  {
    if ws != [] {
      var init := ws[..|ws| - 1];
      AddedKeys(table, init);
      assert ws == init + [ws[|ws| - 1]];
      assert (set w | w in ws) == (set w | w in init) + {ws[|ws| - 1]};
    }
  }

  lemma AddedCounts(table: map<string, int>, ws: seq<string>)
    ensures Added(table, ws).Keys == table.Keys + set w | w in ws
    ensures forall w :: Get(Added(table, ws), w) == Get(table, w) + multiset(ws)[w]
  {
    AddedKeys(table, ws);
    forall w ensures Get(Added(table, ws), w) == Get(table, w) + multiset(ws)[w] {
      AddedGet(table, ws, w);
    }
  }

  /** Every window has length `n`. */
  lemma WindowLengths(text: string, n: int)
    ensures forall w :: w in Windows(text, n) ==> |w| == n
  {
    forall w | w in Windows(text, n) ensures |w| == n {
      var k :| 0 <= k < |Windows(text, n)| && Windows(text, n)[k] == w;
      WindowAt(text, n, k);
    }
  }

  /** The counts added in total are the number of windows,
      `max(0, |text| - n + 1)` for `n >= 1`, and none for `n <= 0`. */
  lemma WindowTotal(text: string, n: int)
    ensures |multiset(Windows(text, n))| == if n <= 0 then 0 else if |text| - n + 1 < 0 then 0 else |text| - n + 1
  {
  }

  /** With `n <= 0` the table is unchanged. */
  lemma NonPositiveWindowUnchanged(table: map<string, int>, text: string, n: int)
    requires n <= 0
    ensures Added(table, Windows(text, n)) == table
  {
  }

  /** The windows of length 1 are the characters of the text, one by one. */
  lemma {:induction false} UnitWindows(text: string)
    ensures Windows(text, 1) == seq(|text|, k requires 0 <= k < |text| => [text[k]])
  {
    var ws := Windows(text, 1);
    forall k | 0 <= k < |text| ensures ws[k] == [text[k]] {
      WindowAt(text, 1, k);
      assert text[k..k + 1] == [text[k]];
    }
  }

  /** Letter counting (`n = 1`, process.cpp's `letter_freq`): each
      character's count grows by its number of occurrences in the text, and
      `|text|` counts are added in all. */
  lemma {:induction false} LetterFrequencies(table: map<string, int>, text: string, c: char)
    ensures Get(Added(table, Windows(text, 1)), [c]) == Get(table, [c]) + multiset(text)[c]
    ensures |multiset(Windows(text, 1))| == |text|
    decreases |text|
  {
    AddedCounts(table, Windows(text, 1));
    UnitCount(text, c);
  }

  lemma {:induction false} UnitCount(text: string, c: char)
    ensures multiset(Windows(text, 1))[[c]] == multiset(text)[c]
    decreases |text|
  {
    if text != [] {
      var init := text[..|text| - 1];
      var last := text[|text| - 1];
      UnitCount(init, c);
      UnitWindowsSnoc(text);
      var before := Windows(init, 1);
      MultisetSnoc(before, [last]);
      assert multiset(Windows(text, 1))[[c]] == multiset(before)[[c]] + multiset{[last]}[[c]];
      assert multiset{[last]}[[c]] == if last == c then 1 else 0 by {
        assert [last] == [c] <==> last == c by {
          if [last] == [c] {
            assert [last][0] == [c][0];
          }
        }
      }
      assert text == init + [last];
      MultisetSnoc(init, last);
    }
  }

  /** The length-1 windows of a non-empty text end with its last character. */
  lemma UnitWindowsSnoc(text: string)
    requires text != []
    ensures Windows(text, 1) == Windows(text[..|text| - 1], 1) + [[text[|text| - 1]]]
  {
    WindowsSnoc(text, |text| - 1, 1);
    assert text[..|text|] == text;
    assert text[|text| - 1..|text|] == [text[|text| - 1]];
  }

  lemma MultisetSnoc<T>(s: seq<T>, x: T)
    ensures multiset(s + [x]) == multiset(s) + multiset{x}
  {
  }
}
