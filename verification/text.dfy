/**
 * The JavaScript string operations the application relies on, over `seq<char>`:
 * `trim`, `startsWith`/`endsWith`, `includes`, a single-occurrence `replace`,
 * `Array.prototype.join`, and the truthiness of a string-or-undefined value.
 */
module Text {
  import opened Wrappers

  /**
   * The code points ECMAScript's `String.prototype.trim` removes: the
   * WhiteSpace set (TAB, VT, FF, SP, NBSP, ZWNBSP and the Zs category) and
   * the LineTerminator set (LF, CR, LS, PS).
   */
  predicate IsSpace(c: char) {
    c in SpaceChars || '\U{2000}' <= c <= '\U{200A}'
  }

  /** The white space and line terminator code points outside the range U+2000..U+200A. */
  const SpaceChars: set<char> := {
    '\t', '\n', '\U{B}', '\U{C}', '\r', ' ', '\U{A0}', '\U{1680}',
    '\U{2028}', '\U{2029}', '\U{202F}', '\U{205F}', '\U{3000}', '\U{FEFF}'
  }

  /** The length of the run of white space at the front of `s`. */
  function LeadingSpace(s: string): (n: nat)
    ensures n <= |s|
    ensures forall k | 0 <= k < n :: IsSpace(s[k])
    ensures n == |s| || !IsSpace(s[n])
    decreases |s|
  {
    if |s| > 0 && IsSpace(s[0]) then
      var m := LeadingSpace(s[1..]);
      assert forall k | 1 <= k < m + 1 :: s[k] == s[1..][k - 1];
      m + 1
    else 0
  }

  /** The offset where the run of white space at the end of `s` begins. */
  function TrailingSpace(s: string): (n: nat)
    ensures n <= |s|
    ensures forall k | n <= k < |s| :: IsSpace(s[k])
    ensures n == 0 || !IsSpace(s[n - 1])
    decreases |s|
  {
    if |s| > 0 && IsSpace(s[|s| - 1]) then
      var m := TrailingSpace(s[..|s| - 1]);
      assert forall k | m <= k < |s| - 1 :: s[k] == s[..|s| - 1][k];
      m
    else |s|
  }

  /**
   * `r` is `s` with white space only cut away before offset `i` and after
   * offset `i + |r|`.
   */
  ghost predicate TrimmedAt(s: string, r: string, i: int) {
    && 0 <= i <= |s| - |r|
    && r == s[i..i + |r|]
    && (forall k | 0 <= k < i :: IsSpace(s[k]))
    && (forall k | i + |r| <= k < |s| :: IsSpace(s[k]))
  }

  /**
   * `String.prototype.trim`: the infix of `s` left once the white space at
   * both ends is gone; what was cut away is white space only.
   */
  function Trim(s: string): (r: string)
    ensures |r| <= |s|
    ensures r == [] || (!IsSpace(r[0]) && !IsSpace(r[|r| - 1]))
    ensures exists i :: TrimmedAt(s, r, i)
  {
    var a := LeadingSpace(s);
    var b := TrailingSpace(s);
    if b <= a then
      assert TrimmedAt(s, [], a);
      []
    else
      assert TrimmedAt(s, s[a..b], a);
      s[a..b]
  }

  /**
   * Trim's result is determined by its characterisation: an infix with
   * non-space ends and only white space cut away is the trimmed string.
   */
  lemma TrimUnique(s: string, r: string, i: int)
    requires TrimmedAt(s, r, i)
    requires r != [] && !IsSpace(r[0]) && !IsSpace(r[|r| - 1])
    ensures Trim(s) == r
  {
    var t := Trim(s);
    var j :| TrimmedAt(s, t, j);
    assert s[i] == r[0];
    assert j <= i < j + |t|;
    assert t[0] == s[j];
    assert i <= j;
    assert s[i + |r| - 1] == r[|r| - 1];
    assert i + |r| <= j + |t|;
    assert t[|t| - 1] == s[j + |t| - 1];
    assert j + |t| <= i + |r|;
  }

  /** `s.startsWith(p)`. */
  predicate StartsWith(s: string, p: string) {
    |p| <= |s| && s[..|p|] == p
  }

  /** `s.endsWith(p)`. */
  predicate EndsWith(s: string, p: string) {
    |p| <= |s| && s[|s| - |p|..] == p
  }

  /** `t` occurs in `s` at offset `i`. */
  ghost predicate OccursAt(s: string, t: string, i: int) {
    0 <= i <= |s| - |t| && s[i..i + |t|] == t
  }

  /** `s.includes(t)`: `t` occurs in `s` at some offset (the empty string occurs everywhere). */
  predicate Contains(s: string, t: string)
    ensures Contains(s, t) <==> exists i :: OccursAt(s, t, i)
    decreases |s|
  {
    if StartsWith(s, t) then
      assert OccursAt(s, t, 0);
      true
    else if |s| == 0 then
      false
    else
      OccurrenceShift(s, t);
      Contains(s[1..], t)
  }

  /** Occurrences in `s[1..]` are the occurrences in `s` past offset 0, moved one to the left. */
  lemma OccurrenceShift(s: string, t: string)
    requires |s| > 0 && !StartsWith(s, t)
    ensures (exists i :: OccursAt(s, t, i)) <==> (exists i :: OccursAt(s[1..], t, i))
  {
    if exists i :: OccursAt(s, t, i) {
      var i :| OccursAt(s, t, i);
      assert i != 0;
      assert s[1..][i - 1..i - 1 + |t|] == s[i..i + |t|];
      assert OccursAt(s[1..], t, i - 1);
    }
    if exists i :: OccursAt(s[1..], t, i) {
      var i :| OccursAt(s[1..], t, i);
      assert s[1..][i..i + |t|] == s[i + 1..i + 1 + |t|];
      assert OccursAt(s, t, i + 1);
    }
  }

  /** `s.replace(/^p/, '')`: `p` removed once from the front of `s` when it is there. */
  function DropPrefix(s: string, p: string): (r: string)
    ensures StartsWith(s, p) ==> p + r == s
    ensures !StartsWith(s, p) ==> r == s
  {
    if StartsWith(s, p) then s[|p|..] else s
  }

  /** `s.replace(/p$/, '')`: `p` removed once from the end of `s` when it is there. */
  function DropSuffix(s: string, p: string): (r: string)
    ensures EndsWith(s, p) ==> r + p == s
    ensures !EndsWith(s, p) ==> r == s
  {
    if EndsWith(s, p) then s[..|s| - |p|] else s
  }

  /** The offset of the first `c` in `s`, or `|s|` when there is none. */
  function FirstIndex(s: string, c: char): (i: nat)
    ensures i <= |s|
    ensures forall k | 0 <= k < i :: s[k] != c
    ensures i < |s| ==> s[i] == c
    decreases |s|
  {
    if |s| == 0 || s[0] == c then 0
    else
      var j := FirstIndex(s[1..], c);
      assert forall k | 1 <= k < j + 1 :: s[k] == s[1..][k - 1];
      j + 1
  }

  /**
   * `s.replace(c, '')` with a one-character string pattern: the first
   * occurrence of `c` removed, `s` itself when there is none.
   */
  function RemoveFirst(s: string, c: char): (r: string)
    ensures c !in s ==> r == s
    ensures c in s ==> exists i | 0 <= i < |s| :: s[i] == c && c !in s[..i] && r == s[..i] + s[i + 1..]
  {
    var i := FirstIndex(s, c);
    if i == |s| then
      s
    else
      assert c !in s[..i] by {
        forall k | 0 <= k < i
          ensures s[..i][k] != c
        {
        }
      }
      s[..i] + s[i + 1..]
  }

  /** `Array.prototype.join(sep)` over strings: "" for no items, the items with `sep` between them otherwise. */
  function Join(xs: seq<string>, sep: string): string
    decreases |xs|
  {
    if |xs| == 0 then ""
    else if |xs| == 1 then xs[0]
    else xs[0] + sep + Join(xs[1..], sep)
  }

  /** `s.split(c)`: the pieces of `s` between occurrences of `c`; always at least one piece. */
  function Split(s: string, c: char): (r: seq<string>)
    ensures |r| >= 1
    decreases |s|
  {
    if |s| == 0 then [""]
    else if s[0] == c then [""] + Split(s[1..], c)
    else
      var rest := Split(s[1..], c);
      [[s[0]] + rest[0]] + rest[1..]
  }

  lemma {:induction false} SplitNoSeparator(s: string, c: char)
    requires c !in s
    ensures Split(s, c) == [s]
    decreases |s|
  {
    if |s| > 0 {
      SplitNoSeparator(s[1..], c);
      assert [s[0]] + s[1..] == s;
    }
  }

  lemma {:induction false} SplitAfterPiece(a: string, b: string, c: char)
    requires c !in a
    ensures Split(a + [c] + b, c) == [a] + Split(b, c)
    decreases |a|
  {
    var s := a + [c] + b;
    if |a| == 0 {
      assert s[0] == c && s[1..] == b;
    } else {
      assert s[0] == a[0];
      assert s[1..] == a[1..] + [c] + b;
      SplitAfterPiece(a[1..], b, c);
      assert [a[0]] + a[1..] == a;
    }
  }

  /**
   * Joining pieces that do not contain `c` with `c` and splitting the result
   * on `c` gives the pieces back.
   */
  lemma {:induction false} SplitJoin(xs: seq<string>, c: char)
    requires |xs| >= 1
    requires forall i | 0 <= i < |xs| :: c !in xs[i]
    ensures Split(Join(xs, [c]), c) == xs
    decreases |xs|
  {
    if |xs| == 1 {
      SplitNoSeparator(xs[0], c);
    } else {
      SplitJoin(xs[1..], c);
      SplitAfterPiece(xs[0], Join(xs[1..], [c]), c);
      assert [xs[0]] + xs[1..] == xs;
    }
  }

  /** The number of UTF-16 code units that encode `c`: two for a code point above U+FFFF. */
  function CodeUnits(c: char): (n: nat)
    ensures n == 1 || n == 2
    ensures n == 2 <==> c as int > 0xFFFF
  {
    if c as int > 0xFFFF then 2 else 1
  }

  /**
   * `s.length`: JavaScript strings count UTF-16 code units, so each code
   * point above U+FFFF counts twice and the length is the number of code
   * points only when there are none.
   */
  function Utf16Length(s: string): (n: nat)
    ensures |s| <= n <= 2 * |s|
    ensures n == |s| <==> forall i | 0 <= i < |s| :: s[i] as int <= 0xFFFF
    decreases |s|
  {
    if |s| == 0 then 0
    else
      var n := Utf16Length(s[1..]);
      assert forall i | 1 <= i < |s| :: s[i] == s[1..][i - 1];
      CodeUnits(s[0]) + n
  }

  /** The length of a concatenation is the sum of the lengths. */
  lemma {:induction false} Utf16LengthAppend(a: string, b: string)
    ensures Utf16Length(a + b) == Utf16Length(a) + Utf16Length(b)
    decreases |a|
  {
    if |a| > 0 {
      assert (a + b)[1..] == a[1..] + b;
      Utf16LengthAppend(a[1..], b);
    } else {
      assert a + b == b;
    }
  }

  /** JavaScript truthiness of a string-or-undefined value: defined and non-empty. */
  predicate Truthy(o: Option<string>) {
    o.Some? && o.value != ""
  }

  /** `o || ''` for a string-or-undefined `o`. */
  function OrEmpty(o: Option<string>): (r: string)
    ensures Truthy(o) ==> r == o.value
    ensures !Truthy(o) ==> r == ""
  {
    if Truthy(o) then o.value else ""
  }
}
