/**
 * The Rust `str` operations the request parser relies on, over strings as
 * sequences of Unicode scalar values: `char::is_whitespace`, `trim`,
 * `lines`, `split_whitespace`, `split_once`, `eq_ignore_ascii_case`,
 * `parse::<usize>`, `join` and byte-offset slicing `&s[..n]`.
 */
module Text {
  import opened Wrappers

  /** `char::is_whitespace`: the Unicode White_Space property. */
  predicate IsWhitespace(c: char) {
    var n := c as int;
    (0x09 <= n <= 0x0D) || n == 0x20 || n == 0x85 || n == 0xA0 || n == 0x1680
    || (0x2000 <= n <= 0x200A) || n == 0x2028 || n == 0x2029 || n == 0x202F
    || n == 0x205F || n == 0x3000
  }

  /** Every character of `s` is whitespace (the empty string included). */
  predicate Blank(s: string) {
    forall i :: 0 <= i < |s| ==> IsWhitespace(s[i])
  }

  predicate NoWhitespace(s: string) {
    forall i :: 0 <= i < |s| ==> !IsWhitespace(s[i])
  }

  // ---------------------------------------------------------------- trim

  /** The number of whitespace characters that start `s`. */
  function LeadingSpace(s: string): (n: nat)
    ensures n <= |s|
    ensures forall i :: 0 <= i < n ==> IsWhitespace(s[i])
    ensures n < |s| ==> !IsWhitespace(s[n])
  {
    if s == [] || !IsWhitespace(s[0]) then 0 else LeadingSpace(s[1..]) + 1
  }

  /** The length of `s` without the whitespace that ends it. */
  function ContentEnd(s: string): (n: nat)
    ensures n <= |s|
    ensures forall i :: n <= i < |s| ==> IsWhitespace(s[i])
    ensures n > 0 ==> !IsWhitespace(s[n - 1])
  {
    if s == [] || !IsWhitespace(s[|s| - 1]) then |s| else ContentEnd(s[..|s| - 1])
  }

  /** `str::trim_start`: drops the leading whitespace. */
  function TrimStart(s: string): (r: string)
    ensures |r| <= |s| && r == s[|s| - |r|..]
    ensures forall i :: 0 <= i < |s| - |r| ==> IsWhitespace(s[i])
    ensures r != [] ==> !IsWhitespace(r[0])
  {
    s[LeadingSpace(s)..]
  }

  /** `str::trim_end`: drops the trailing whitespace. */
  function TrimEnd(s: string): (r: string)
    ensures |r| <= |s| && r == s[..|r|]
    ensures forall i :: |r| <= i < |s| ==> IsWhitespace(s[i])
    ensures r != [] ==> !IsWhitespace(r[|r| - 1])
  {
    s[..ContentEnd(s)]
  }

  /** `str::trim`: the slice of `s` without its leading and trailing whitespace. */
  function Trim(s: string): (r: string)
    ensures r == [] <==> Blank(s)
    ensures r != [] ==> !IsWhitespace(r[0]) && !IsWhitespace(r[|r| - 1])
  {
    var t := TrimStart(s);
    var r := TrimEnd(t);
    if r == [] then
      assert |t| == 0;
      r
    else
      assert !IsWhitespace(s[|s| - |t|]) by { assert r[0] == t[0]; }
      r
  }

  // ---------------------------------------------------------------- join

  /** `[&str]::join(sep)`: the items with `sep` between consecutive ones. */
  function Join(items: seq<string>, sep: string): string {
    if |items| == 0 then []
    else if |items| == 1 then items[0]
    else items[0] + sep + Join(items[1..], sep)
  }

  /** A character in no item and not in the separator is not in the joined text. */
  lemma {:induction false} JoinAvoids(items: seq<string>, sep: string, c: char)
    requires c !in sep
    requires forall i :: 0 <= i < |items| ==> c !in items[i]
    ensures c !in Join(items, sep)
  {
    if |items| > 1 {
      JoinAvoids(items[1..], sep, c);
      assert c !in items[0];
    }
  }

  // ---------------------------------------------------------------- lines

  /** The index of the first `c` in `s` at or after `lo`, or `|s|` if there is none. */
  function IndexOf(s: string, c: char, lo: nat): (k: nat)
    requires lo <= |s|
    ensures lo <= k <= |s|
    ensures k < |s| ==> s[k] == c
    decreases |s| - lo
  {
    if lo == |s| || s[lo] == c then lo else IndexOf(s, c, lo + 1)
  }

  /** `IndexOf` skips no `c`. */
  lemma {:induction false} IndexOfFirst(s: string, c: char, lo: nat)
    requires lo <= |s|
    ensures forall i :: lo <= i < IndexOf(s, c, lo) ==> s[i] != c
    decreases |s| - lo
  {
    if lo < |s| && s[lo] != c {
      IndexOfFirst(s, c, lo + 1);
    }
  }

  /** Drops one trailing carriage return. */
  function StripCr(line: string): string {
    if line != [] && line[|line| - 1] == '\r' then line[..|line| - 1] else line
  }

  /**
   * `str::lines`: the pieces of `s` between line feeds. A piece ended by a
   * line feed loses that line feed and then one carriage return; the last
   * piece, if not ended by a line feed, is kept as it is; a line feed at the
   * very end does not start another (empty) line.
   */
  function Lines(s: string): (r: seq<string>)
    ensures forall i :: 0 <= i < |r| ==> '\n' !in r[i]
    ensures r == [] <==> s == []
    decreases |s|
  {
    if s == [] then []
    else
      var k := IndexOf(s, '\n', 0);
      IndexOfFirst(s, '\n', 0);
      if k == |s| then
        assert forall j :: 0 <= j < |s| ==> s[j] != '\n';
        [s]
      else
        assert forall j :: 0 <= j < k ==> s[..k][j] != '\n';
        [StripCr(s[..k])] + Lines(s[k + 1..])
  }

  /** A line without line feeds, ended by CRLF, is the first line of the text. */
  lemma LinesCons(head: string, rest: string)
    requires '\n' !in head
    ensures Lines(head + "\r\n" + rest) == [head] + Lines(rest)
  {
    var s := head + "\r\n" + rest;
    assert forall j :: 0 <= j <= |head| ==> s[j] != '\n' by {
      forall j | 0 <= j <= |head| ensures s[j] != '\n' {
        if j < |head| { assert s[j] == head[j]; assert head[j] in head; }
      }
    }
    assert s[|head| + 1] == '\n';
    var k := IndexOf(s, '\n', 0);
    IndexOfFirst(s, '\n', 0);
    assert k == |head| + 1;
    assert s[..k] == head + "\r";
    assert s[k + 1..] == rest;
  }

  /**
   * Lines joined with CRLF (the wire format of a request) split back into
   * the same lines, as long as no line holds a line feed and the last line
   * is not empty.
   */
  lemma {:induction false} LinesOfCrlfJoin(ls: seq<string>)
    requires forall i :: 0 <= i < |ls| ==> '\n' !in ls[i]
    requires ls != [] ==> ls[|ls| - 1] != []
    ensures Lines(Join(ls, "\r\n")) == ls
  {
    if |ls| == 1 {
      var s := ls[0];
      assert forall j :: 0 <= j < |s| ==> s[j] != '\n' by {
        forall j | 0 <= j < |s| ensures s[j] != '\n' { assert s[j] in s; }
      }
    } else if |ls| > 1 {
      LinesCons(ls[0], Join(ls[1..], "\r\n"));
      LinesOfCrlfJoin(ls[1..]);
    }
  }

  // ---------------------------------------------------------------- split_whitespace

  /** The length of the run of non-whitespace characters that starts `s`. */
  function TokenEnd(s: string): (k: nat)
    ensures k <= |s|
    ensures k < |s| ==> IsWhitespace(s[k])
    ensures forall i :: 0 <= i < k ==> !IsWhitespace(s[i])
  {
    if s == [] || IsWhitespace(s[0]) then 0 else TokenEnd(s[1..]) + 1
  }

  /** `str::split_whitespace`: the maximal non-empty runs of non-whitespace characters. */
  function SplitWhitespace(s: string): (r: seq<string>)
    ensures forall i :: 0 <= i < |r| ==> r[i] != [] && NoWhitespace(r[i])
    decreases |s|
  {
    if s == [] then []
    else if IsWhitespace(s[0]) then SplitWhitespace(s[1..])
    else
      var k := TokenEnd(s);
      [s[..k]] + SplitWhitespace(s[k..])
  }

  /**
   * Splitting tokens joined by single spaces gives the tokens back: a request
   * line `METHOD SP PATH SP VERSION` yields exactly those three parts.
   */
  lemma {:induction false} SplitJoinRoundTrip(ts: seq<string>)
    requires forall i :: 0 <= i < |ts| ==> ts[i] != [] && NoWhitespace(ts[i])
    ensures SplitWhitespace(Join(ts, " ")) == ts
  {
    if |ts| == 1 {
      var s := ts[0];
      assert !IsWhitespace(s[0]);
      assert TokenEnd(s) == |s|;
      assert s[..|s|] == s && s[|s|..] == [];
    } else if |ts| > 1 {
      var rest := Join(ts[1..], " ");
      var s := Join(ts, " ");
      assert s == ts[0] + " " + rest;
      var k := TokenEnd(s);
      assert forall j :: 0 <= j < |ts[0]| ==> s[j] == ts[0][j] && !IsWhitespace(s[j]);
      assert IsWhitespace(s[|ts[0]|]);
      assert k == |ts[0]|;
      assert s[..k] == ts[0];
      assert s[k..] == " " + rest;
      assert (" " + rest)[1..] == rest;
      SplitJoinRoundTrip(ts[1..]);
    }
  }

  // ---------------------------------------------------------------- split_once

  /** `pat` occurs in `s` starting at index `i`. */
  predicate OccursAt(s: string, pat: string, i: nat) {
    i + |pat| <= |s| && s[i..i + |pat|] == pat
  }

  /** The first index at or after `lo` where `pat` occurs in `s`, or `|s|` if none. */
  function Find(s: string, pat: string, lo: nat): (k: nat)
    requires pat != [] && lo <= |s|
    ensures lo <= k <= |s|
    ensures k < |s| ==> OccursAt(s, pat, k)
    decreases |s| - lo
  {
    if lo == |s| || OccursAt(s, pat, lo) then lo else Find(s, pat, lo + 1)
  }

  /** `Find` skips no occurrence. */
  lemma {:induction false} FindFirst(s: string, pat: string, lo: nat)
    requires pat != [] && lo <= |s|
    ensures forall i :: lo <= i < Find(s, pat, lo) ==> !OccursAt(s, pat, i)
    decreases |s| - lo
  {
    if lo < |s| && !OccursAt(s, pat, lo) {
      FindFirst(s, pat, lo + 1);
    }
  }

  /** `pat` occurs somewhere in `s`. */
  predicate Contains(s: string, pat: string) {
    exists i :: 0 <= i < |s| && OccursAt(s, pat, i)
  }

  /** The first occurrence of `pat` in `s` starts at index `k`. */
  predicate FirstAt(s: string, pat: string, k: nat) {
    OccursAt(s, pat, k) && forall i :: 0 <= i < k ==> !OccursAt(s, pat, i)
  }

  /**
   * `str::split_once(pat)`: the text before and after the first occurrence of
   * `pat`, or None when `pat` does not occur (SplitOnceSpec).
   */
  function SplitOnce(s: string, pat: string): Option<(string, string)>
    requires pat != []
  {
    var k := Find(s, pat, 0);
    if k == |s| then None else Some((s[..k], s[k + |pat|..]))
  }

  /** What `split_once` promises: None exactly when `pat` is absent, else the split at its first occurrence. */
  lemma SplitOnceSpec(s: string, pat: string)
    requires pat != []
    ensures SplitOnce(s, pat).None? <==> !Contains(s, pat)
    ensures SplitOnce(s, pat).Some? ==>
      var (key, value) := SplitOnce(s, pat).value;
      key + pat + value == s && FirstAt(s, pat, |key|)
  {
    var k := Find(s, pat, 0);
    FindFirst(s, pat, 0);
    if k < |s| {
      assert s == s[..k] + s[k..k + |pat|] + s[k + |pat|..];
    }
  }

  /** A header line `key: value` whose key holds no ": " splits into that key and value. */
  lemma SplitOnceHeader(key: string, value: string)
    requires forall i :: 0 <= i < |key| ==> !OccursAt(key, ": ", i)
    ensures SplitOnce(key + ": " + value, ": ") == Some((key, value))
  {
    var s := key + ": " + value;
    forall i | 0 <= i < |key|
      ensures !OccursAt(s, ": ", i)
    {
      if i + 1 < |key| {
        assert s[i..i + 2] == key[i..i + 2];
        assert !OccursAt(key, ": ", i);
      } else {
        var w := s[i..i + 2];
        assert w[1] == s[i + 1] == ':';
        assert w != ": " by { assert ": "[1] == ' '; }
      }
    }
    assert OccursAt(s, ": ", |key|) by { assert s[|key|..|key| + 2] == ": "; }
    var k := Find(s, ": ", 0);
    FindFirst(s, ": ", 0);
    assert k == |key|;
    assert s[..k] == key;
    assert s[k + 2..] == value;
  }

  // ---------------------------------------------------------------- eq_ignore_ascii_case

  function AsciiLower(c: char): char {
    if 'A' <= c <= 'Z' then (c as int + 32) as char else c
  }

  /**
   * `str::eq_ignore_ascii_case`: equal up to the case of ASCII letters. (Rust
   * compares bytes; against an ASCII text, as here, that is the same as
   * comparing characters.)
   */
  predicate EqIgnoreAsciiCase(a: string, b: string) {
    |a| == |b| && (a == [] || (AsciiLower(a[0]) == AsciiLower(b[0]) && EqIgnoreAsciiCase(a[1..], b[1..])))
  }

  /** Every text equals itself up to case. */
  lemma {:induction false} EqIgnoreAsciiCaseRefl(a: string)
    ensures EqIgnoreAsciiCase(a, a)
  {
    if a != [] {
      EqIgnoreAsciiCaseRefl(a[1..]);
    }
  }

  /** The two texts agree character by character, up to the case of ASCII letters. */
  lemma {:induction false} EqIgnoreAsciiCaseAll(a: string, b: string)
    ensures EqIgnoreAsciiCase(a, b) <==> |a| == |b| && forall i :: 0 <= i < |a| ==> AsciiLower(a[i]) == AsciiLower(b[i])
  {
    if |a| == |b| && a != [] {
      EqIgnoreAsciiCaseAll(a[1..], b[1..]);
      assert forall i :: 1 <= i < |a| ==> a[1..][i - 1] == a[i] && b[1..][i - 1] == b[i];
    }
  }

  // ---------------------------------------------------------------- parse::<usize>

  /** The largest `usize` on a 64-bit target. */
  const USIZE_MAX: nat := 0xFFFF_FFFF_FFFF_FFFF

  predicate IsDigit(c: char) {
    '0' <= c <= '9'
  }

  predicate AllDigits(s: string) {
    forall i :: 0 <= i < |s| ==> IsDigit(s[i])
  }

  /** The value of a string of decimal digits, most significant first. */
  function DigitsValue(s: string): nat
    requires AllDigits(s)
  {
    if s == [] then 0
    else DigitsValue(s[..|s| - 1]) * 10 + (s[|s| - 1] as int - '0' as int)
  }

  /**
   * `str::parse::<usize>`: an optional `+`, then at least one decimal digit
   * and nothing else, with a value that fits in a `usize`.
   */
  function ParseUsize(s: string): (r: Option<nat>)
    ensures r.Some? ==> r.value <= USIZE_MAX
  {
    var digits := if s != [] && s[0] == '+' then s[1..] else s;
    if digits != [] && AllDigits(digits) && DigitsValue(digits) <= USIZE_MAX then
      Some(DigitsValue(digits))
    else None
  }

  /** `usize::to_string`: the decimal digits of `n`, without leading zeros. */
  function Decimal(n: nat): (r: string)
    ensures r != [] && AllDigits(r)
  {
    var d := ('0' as int + n % 10) as char;
    if n < 10 then [d] else Decimal(n / 10) + [d]
  }

  lemma {:induction false} DecimalValue(n: nat)
    ensures DigitsValue(Decimal(n)) == n
  {
    var s := Decimal(n);
    if n >= 10 {
      DecimalValue(n / 10);
      assert s[..|s| - 1] == Decimal(n / 10);
    }
  }

  /**
   * Parsing the decimal text of a number gives the number back exactly when
   * it fits in a `usize`: so a store key `id.to_string()` determines the id.
   */
  lemma ParseDecimal(n: nat)
    ensures ParseUsize(Decimal(n)) == if n <= USIZE_MAX then Some(n) else None
  {
    DecimalValue(n);
  }

  // ---------------------------------------------------------------- &s[..n]

  /** The number of bytes UTF-8 uses for `c`. */
  function Utf8Width(c: char): nat {
    var n := c as int;
    if n < 0x80 then 1 else if n < 0x800 then 2 else if n < 0x1_0000 then 3 else 4
  }

  /** `str::len`: the length of `s` in UTF-8 bytes. */
  function ByteLen(s: string): (n: nat)
    ensures n == 0 <==> s == []
  {
    if s == [] then 0 else Utf8Width(s[0]) + ByteLen(s[1..])
  }

  /**
   * `&s[..n]`: the prefix of `s` that is `n` bytes long. Rust panics when `n`
   * exceeds the length or does not fall on a character boundary; that is None.
   */
  function SliceBytes(s: string, n: nat): (r: Option<string>)
    ensures r.Some? ==> r.value <= s && ByteLen(r.value) == n
    ensures r.None? ==> forall k :: 0 <= k <= |s| ==> ByteLen(s[..k]) != n
  {
    if n == 0 then Some([])
    else if s == [] then None
    else
      var w := Utf8Width(s[0]);
      if w > n then
        assert forall k :: 1 <= k <= |s| ==> ByteLen(s[..k]) >= w by {
          forall k | 1 <= k <= |s| ensures ByteLen(s[..k]) >= w {
            assert s[..k][0] == s[0];
          }
        }
        None
      else
        match SliceBytes(s[1..], n - w)
        case None =>
          assert forall k :: 1 <= k <= |s| ==> ByteLen(s[..k]) == w + ByteLen(s[1..][..k - 1]) by {
            forall k | 1 <= k <= |s| ensures ByteLen(s[..k]) == w + ByteLen(s[1..][..k - 1]) {
              assert s[..k][1..] == s[1..][..k - 1];
            }
          }
          None
        case Some(p) =>
          assert ([s[0]] + p)[1..] == p;
          Some([s[0]] + p)
  }

  /** A byte length is at least the character length and at most four times it. */
  lemma {:induction false} ByteLenBounds(s: string)
    ensures |s| <= ByteLen(s) <= 4 * |s|
  {
    if s != [] {
      ByteLenBounds(s[1..]);
    }
  }

  /** The bytes of `s` are those of a prefix plus those of the rest. */
  lemma {:induction false} ByteLenPrefix(p: string, s: string)
    requires p <= s
    ensures ByteLen(s) == ByteLen(p) + ByteLen(s[|p|..])
  {
    if p != [] {
      assert p[1..] <= s[1..];
      ByteLenPrefix(p[1..], s[1..]);
      assert s[1..][|p| - 1..] == s[|p|..];
    }
  }

  /** Cutting a string at its own byte length keeps all of it. */
  lemma SliceWhole(s: string)
    ensures SliceBytes(s, ByteLen(s)) == Some(s)
  {
    assert s[..|s|] == s;
    var p := SliceBytes(s, ByteLen(s)).value;
    ByteLenPrefix(p, s);
    ByteLenBounds(s[|p|..]);
    assert p == s[..|p|];
  }

  predicate Ascii(s: string) {
    forall i :: 0 <= i < |s| ==> s[i] as int < 0x80
  }

  lemma {:induction false} AsciiByteLen(s: string)
    requires Ascii(s)
    ensures ByteLen(s) == |s|
  {
    if s != [] {
      AsciiByteLen(s[1..]);
    }
  }

  /** On ASCII text a byte slice is a character slice: it succeeds exactly when `n <= |s|`. */
  lemma SliceAscii(s: string, n: nat)
    requires Ascii(s)
    ensures SliceBytes(s, n) == if n <= |s| then Some(s[..n]) else None
  {
    forall k | 0 <= k <= |s| ensures ByteLen(s[..k]) == k {
      AsciiByteLen(s[..k]);
    }
    var r := SliceBytes(s, n);
    if r.Some? {
      assert r.value == s[..|r.value|];
      AsciiByteLen(r.value);
    }
  }
}
