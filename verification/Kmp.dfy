/**
 Substring search in dynamic strings: the Knuth-Morris-Pratt table, in the variant that skips a
 border when the character after it would fail again, and the search that uses it.
 `Find` returns the first occurrence at or after the start, or -1 if and only if there is none.
 */
module Kmp {

  /** The needle occurs at position s of the text. */
  predicate Occurs(needle: string, text: string, s: int) {
    0 <= s <= |text| - |needle| && text[s..s + |needle|] == needle
  }

  /** The first k characters of the needle are also the last k of its first i, and k < i. */
  ghost predicate Border(needle: string, i: int, k: int) {
    0 <= k < i <= |needle| && needle[..k] == needle[i - k..i]
  }

  /** What the table says at i: the longest border whose next character differs from that at i;
      the longest border at the end of the needle; -1 if there is none. */
  ghost predicate Entry(needle: string, i: int, t: int)
    requires 0 <= i <= |needle|
  {
    && -1 <= t < i
    && (t >= 0 ==> Border(needle, i, t) && (i < |needle| ==> needle[t] != needle[i]))
    && forall k | t < k < i && Border(needle, i, k) :: i < |needle| && needle[k] == needle[i]
  }

  ghost predicate Table(needle: string, table: seq<int>, n: nat) {
    n <= |needle| < |table| && forall i | 0 <= i <= n :: Entry(needle, i, table[i])
  }

  // ---------- borders ----------

  /** A border of a border, and the other way round. */
  lemma {:induction false} BorderOfBorder(needle: string, i: int, j: int, k: int)
    requires Border(needle, i, j) && k < j
    ensures Border(needle, j, k) <==> Border(needle, i, k)
  {
    if 0 <= k {
      assert needle[i - k..i] == needle[i - j..i][j - k..];
      assert needle[j - k..j] == needle[..j][j - k..];
    }
  }

  /** One character more. */
  lemma {:induction false} BorderExtends(needle: string, i: int, k: int)
    requires 0 <= k < i < |needle|
    ensures Border(needle, i + 1, k + 1) <==> Border(needle, i, k) && needle[k] == needle[i]
  {
    var a, b := needle[..k + 1], needle[i - k..i + 1];
    assert a == needle[..k] + [needle[k]];
    assert b == needle[i - k..i] + [needle[i]];
  }

  // ---------- the table ----------

  /** While a border to extend at i is looked for: no longer one can be extended. */
  ghost predicate Extending(needle: string, i: int, j: int)
    requires 0 <= i < |needle|
  {
    && -1 <= j < i && (j >= 0 ==> Border(needle, i, j))
    && forall k | j < k < i && Border(needle, i, k) :: needle[k] != needle[i]
  }

  lemma {:induction false} ExtendingNext(needle: string, i: int, j: int, t: int)
    requires 0 <= j < i < |needle| && Extending(needle, i, j) && needle[i] != needle[j] && Entry(needle, j, t)
    ensures Extending(needle, i, t)
  {
    if t >= 0 {
      BorderOfBorder(needle, i, j, t);
    }
    forall k | t < k < i && Border(needle, i, k)
      ensures needle[k] != needle[i]
    {
      if k < j {
        BorderOfBorder(needle, i, j, k);
      }
    }
  }

  /** j is the longest border of the first i characters, -1 for none at all. */
  ghost predicate Longest(needle: string, i: int, j: int)
    requires 0 <= i <= |needle|
  {
    && -1 <= j < i && (j >= 0 ==> Border(needle, i, j)) && (i > 0 ==> j >= 0)
    && forall k | j < k < i :: !Border(needle, i, k)
  }

  lemma {:induction false} ExtendingEnds(needle: string, i: int, j: int)
    requires 0 <= i < |needle| && Extending(needle, i, j) && (j >= 0 ==> needle[i] == needle[j])
    ensures Longest(needle, i + 1, j + 1)
  {
    if j >= 0 {
      BorderExtends(needle, i, j);
    }
    var n := i + 1;
    forall k | j + 1 < k < n
      ensures !Border(needle, n, k)
    {
      BorderExtends(needle, i, k - 1);
    }
  }

  /** The entry that the longest border gives. */
  lemma {:induction false} EntryFrom(needle: string, i: int, j: int, t: int)
    requires 0 <= j < i <= |needle| && Longest(needle, i, j) && Entry(needle, j, t)
    ensures i < |needle| && needle[i] == needle[j] ==> Entry(needle, i, t)
    ensures i == |needle| || needle[i] != needle[j] ==> Entry(needle, i, j)
  {
    if i < |needle| && needle[i] == needle[j] {
      if t >= 0 {
        BorderOfBorder(needle, i, j, t);
      }
      forall k | t < k < i && Border(needle, i, k)
        ensures needle[k] == needle[i]
      {
        if k < j {
          BorderOfBorder(needle, i, j, k);
        }
      }
    }
  }

  /** The inner loop of `_utstring_BuildTable`: the longest border that can be extended at i. */
  method Shorten(needle: string, table: array<int>, i: int, j0: int) returns (j: int)
    requires 0 <= i < |needle| && Table(needle, table[..], i) && Longest(needle, i, j0)
    ensures Longest(needle, i + 1, j + 1)
  {
    j := j0;
    while j > -1 && needle[i] != needle[j]
      invariant Extending(needle, i, j)
      decreases j
    {
      assert Entry(needle, j, table[..][j]);
      ExtendingNext(needle, i, j, table[j]);
      j := table[j];
    }
    ExtendingEnds(needle, i, j);
  }

  lemma {:induction false} TableGrows(needle: string, table: seq<int>, i: nat, j: int)
    requires i < |needle| && Table(needle, table, i) && Longest(needle, i + 1, j)
    ensures j < |table| && j >= 0
    ensures i + 1 < |needle| && needle[i + 1] == needle[j] ==> Table(needle, table[i + 1 := table[j]], i + 1)
    ensures i + 1 == |needle| || needle[i + 1] != needle[j] ==> Table(needle, table[i + 1 := j], i + 1)
  {
    assert Entry(needle, j, table[j]);
    EntryFrom(needle, i + 1, j, table[j]);
    if i + 1 < |needle| && needle[i + 1] == needle[j] {
      TableSet(needle, table, i, table[j]);
    } else {
      TableSet(needle, table, i, j);
    }
  }

  lemma {:induction false} TableSet(needle: string, table: seq<int>, i: nat, t: int)
    requires i < |needle| && Table(needle, table, i) && Entry(needle, i + 1, t)
    ensures Table(needle, table[i + 1 := t], i + 1)
  {
  }

  /** `_utstring_BuildTable`. */
  method BuildTable(needle: string, table: array<int>)
    requires table.Length > |needle|
    modifies table
    ensures Table(needle, table[..], |needle|)
  {
    var i, j := 0, -1;
    table[i] := j;
    while i < |needle|
      invariant 0 <= i <= |needle| && Longest(needle, i, j)
      invariant Table(needle, table[..], i)
    {
      j := Shorten(needle, table, i, j);
      i := i + 1;
      j := j + 1;
      TableGrows(needle, table[..], i - 1, j);
      ghost var was := table[..];
      if i < |needle| && needle[i] == needle[j] {
        table[i] := table[j];
        assert table[..] == was[i := was[j]];
      } else {
        table[i] := j;
        assert table[..] == was[i := j];
      }
    }
  }

  // ---------- the search ----------

  /** The first i characters of the needle end at j, and no occurrence starts before them. */
  ghost predicate Matching(needle: string, text: string, i: int, j: int) {
    && 0 <= j <= |text| && -1 <= i <= j && i <= |needle|
    && (i >= 0 ==> text[j - i..j] == needle[..i])
    && forall s | 0 <= s < j - i :: !Occurs(needle, text, s)
  }

  /** An occurrence that overlaps the match shows a border, and the character to come. */
  lemma {:induction false} Overlaps(needle: string, text: string, i: int, j: int, s: int)
    requires 0 <= i < |needle| && 0 <= j - i <= s <= j < |text| && text[j - i..j] == needle[..i]
    ensures Occurs(needle, text, s) ==> needle[j - s] == text[j] && (j - i < s ==> Border(needle, i, j - s))
  {
    var k := j - s;
    if Occurs(needle, text, s) {
      assert text[j] == text[s..s + |needle|][k] == needle[k];
      assert needle[..k] == text[s..s + |needle|][..k] == text[s..j];
      assert needle[i - k..i] == needle[..i][i - k..] == text[j - i..j][i - k..] == text[s..j];
    }
  }

  /** Occurrences between here and where the table leads would fail at the same character. */
  lemma {:induction false} Skips(needle: string, text: string, i: int, j: int, t: int, s: int)
    requires Matching(needle, text, i, j) && 0 <= i < |needle| && j < |text| && needle[i] != text[j]
    requires Entry(needle, i, t) && j - i <= s < j - t
    ensures !Occurs(needle, text, s)
  {
    if s <= j {
      Overlaps(needle, text, i, j, s);
    }
  }

  lemma {:induction false} MatchingNext(needle: string, text: string, i: int, j: int, t: int)
    requires Matching(needle, text, i, j) && 0 <= i < |needle| && j < |text| && needle[i] != text[j]
        && Entry(needle, i, t)
    ensures Matching(needle, text, t, j)
  {
    forall s | 0 <= s < j - t
      ensures !Occurs(needle, text, s)
    {
      if s >= j - i {
        Skips(needle, text, i, j, t, s);
      }
    }
    if t >= 0 {
      assert text[j - t..j] == text[j - i..j][i - t..];
      assert needle[..i][i - t..] == needle[i - t..i];
    }
  }

  lemma {:induction false} MatchingMore(needle: string, text: string, i: int, j: int)
    requires Matching(needle, text, i, j) && i < |needle| && j < |text| && (i >= 0 ==> needle[i] == text[j])
    ensures Matching(needle, text, i + 1, j + 1)
  {
    if i >= 0 {
      assert text[j - i..j + 1] == text[j - i..j] + [text[j]];
      assert needle[..i + 1] == needle[..i] + [needle[i]];
    }
  }

  /** All of the needle has been matched: this is its first occurrence. */
  lemma {:induction false} MatchingAll(needle: string, text: string, j: int)
    requires Matching(needle, text, |needle|, j) && j <= |text|
    ensures Occurs(needle, text, j - |needle|)
    ensures forall s | Occurs(needle, text, s) :: j - |needle| <= s
  {
    assert needle[..|needle|] == needle;
  }

  /** What is left of the text is too short. */
  lemma {:induction false} MatchingNone(needle: string, text: string, i: int, j: int)
    requires 0 <= i < |needle| && Matching(needle, text, i, j) && |text| - j + i < |needle|
    ensures forall s :: !Occurs(needle, text, s)
  {
  }

  /** The inner loop: follow the table while the characters differ. */
  method Follow(text: string, needle: string, table: array<int>, i0: nat, j: nat) returns (i: int)
    requires i0 < |needle| && j < |text| && Matching(needle, text, i0, j) && Table(needle, table[..], |needle|)
    ensures i < |needle| && Matching(needle, text, i, j) && (i >= 0 ==> needle[i] == text[j])
  {
    i := i0;
    while i > -1 && needle[i] != text[j]
      invariant i < |needle| && Matching(needle, text, i, j)
      decreases i
    {
      assert table[..][i] == table[i];
      MatchingNext(needle, text, i, j, table[i]);
      i := table[i];
    }
  }

  /** `_utstring_find`: the first occurrence, with an early exit when the rest is too short. */
  method Search(text: string, needle: string, table: array<int>) returns (position: int)
    requires |needle| > 0 && Table(needle, table[..], |needle|)
    ensures position == -1 || Occurs(needle, text, position)
    ensures forall s | Occurs(needle, text, s) :: 0 <= position <= s
  {
    position := -1;
    var i, j := 0, 0;
    while j < |text| && |text| - j + i >= |needle|
      invariant 0 <= i < |needle| && Matching(needle, text, i, j)
      decreases |text| - j
    {
      i := Follow(text, needle, table, i, j);
      MatchingMore(needle, text, i, j);
      i := i + 1;
      j := j + 1;
      if i >= |needle| {
        MatchingAll(needle, text, j);
        return j - i;
      }
    }
    MatchingNone(needle, text, i, j);
  }

  /** `utstring_find`: the search from a position, counted from the end if it is negative. */
  method Find(s: string, start: int, needle: string) returns (position: int)
    requires start >= -|s|
    ensures var from := if start < 0 then |s| + start else start;
            && (position == -1 || (from <= position && needle != "" && Occurs(needle, s, position)))
            && (forall p | from <= p && needle != "" && Occurs(needle, s, p) :: 0 <= position <= p)
  {
    var from := if start < 0 then |s| + start else start;
    position := -1;
    if |s| - from >= |needle| && |needle| > 0 {
      var table := new int[|needle| + 1];
      BuildTable(needle, table);
      position := Search(s[from..], needle, table);
      if position >= 0 {
        Shifted(s, from, needle, position);
        position := position + from;
      }
      forall p | from <= p && Occurs(needle, s, p)
        ensures 0 <= position <= p
      {
        Shifted(s, from, needle, p - from);
      }
    }
  }

  lemma {:induction false} Shifted(s: string, from: nat, needle: string, p: int)
    requires from <= |s|
    ensures p >= 0 ==> (Occurs(needle, s[from..], p) <==> Occurs(needle, s, p + from))
  {
    if 0 <= p <= |s| - from - |needle| {
      assert s[from..][p..p + |needle|] == s[p + from..p + from + |needle|];
    }
  }
}
