/**
 * Header normalisation applied to the dataset right after loading:
 * every header is stripped of surrounding whitespace, lower-cased, and has its
 * spaces turned into underscores.
 */
module Columns {

  /** The characters Python's `str.strip()` removes (those for which `str.isspace()` holds). */
  predicate IsSpace(c: char) {
    var n := c as int;
    || 0x09 <= n <= 0x0D || 0x1C <= n <= 0x20 || n == 0x85 || n == 0xA0 || n == 0x1680
    || 0x2000 <= n <= 0x200A || n == 0x2028 || n == 0x2029 || n == 0x202F || n == 0x205F
    || n == 0x3000
  }

  predicate IsUpper(c: char) {
    'A' <= c <= 'Z'
  }

  function ToLower(c: char): (d: char)
    ensures IsUpper(c) ==> d as int == c as int + 32
    ensures !IsUpper(c) ==> d == c
    ensures !IsUpper(d) && (IsSpace(d) <==> IsSpace(c))
  {
    if IsUpper(c) then (c as int + 32) as char else c
  }

  /** `str.lstrip()`: drops the leading whitespace, and nothing else. */
  function StripLeading(s: string): (r: string)
    ensures r == [] || !IsSpace(r[0])
    ensures |r| <= |s| && r == s[|s| - |r|..]
    ensures forall i :: 0 <= i < |s| - |r| ==> IsSpace(s[i])
  {
    if s != [] && IsSpace(s[0]) then StripLeading(s[1..]) else s
  }

  /** `str.rstrip()`: drops the trailing whitespace, and nothing else. */
  function StripTrailing(s: string): (r: string)
    ensures r == [] || !IsSpace(r[|r| - 1])
    ensures |r| <= |s| && r == s[..|r|]
    ensures forall i :: |r| <= i < |s| ==> IsSpace(s[i])
  {
    if s != [] && IsSpace(s[|s| - 1]) then StripTrailing(s[..|s| - 1]) else s
  }

  /**
   * `r` is a contiguous stretch of `s` that starts `lead` characters in, with only
   * whitespace before and after it.
   */
  ghost predicate TrimmedFrom(r: string, s: string, lead: int) {
    && 0 <= lead && lead + |r| <= |s| && r == s[lead..lead + |r|]
    && (forall i :: 0 <= i < lead ==> IsSpace(s[i]))
    && (forall i :: lead + |r| <= i < |s| ==> IsSpace(s[i]))
  }

  /**
   * `str.strip()`: the stretch of `s` left after its leading and trailing whitespace,
   * which neither starts nor ends with whitespace.
   */
  function Strip(s: string): (r: string)
    ensures r == [] || (!IsSpace(r[0]) && !IsSpace(r[|r| - 1]))
    ensures TrimmedFrom(r, s, |s| - |StripLeading(s)|)
  {
    StripIsSlice(s);
    StripTrailing(StripLeading(s))
  }

  lemma {:induction false} StripIsSlice(s: string)
    ensures var l := StripLeading(s);
      var r := StripTrailing(l);
      && (r == [] || (!IsSpace(r[0]) && !IsSpace(r[|r| - 1])))
      && TrimmedFrom(r, s, |s| - |l|)
  {
    var l := StripLeading(s);
    TrimmedSlice(s, l, StripTrailing(l), |s| - |l|);
  }

  /** Trimming the end of a suffix of `s` that follows only whitespace leaves a stretch of `s`. */
  lemma {:induction false} TrimmedSlice(s: string, l: string, r: string, lead: nat)
    requires lead + |l| == |s| && l == s[lead..]
    requires forall i :: 0 <= i < lead ==> IsSpace(s[i])
    requires l == [] || !IsSpace(l[0])
    requires |r| <= |l| && r == l[..|r|]
    requires forall i :: |r| <= i < |l| ==> IsSpace(l[i])
    requires r == [] || !IsSpace(r[|r| - 1])
    ensures r == [] || (!IsSpace(r[0]) && !IsSpace(r[|r| - 1]))
    ensures TrimmedFrom(r, s, lead)
  {
    assert r != [] ==> r[0] == l[0];
    forall i | lead + |r| <= i < |s| ensures IsSpace(s[i]) {
      assert s[i] == l[i - lead];
    }
  }

  /** `str.lower()`, on the ASCII letters. */
  function Lower(s: string): (r: string)
    ensures |r| == |s|
    ensures forall i :: 0 <= i < |s| ==> r[i] == ToLower(s[i])
  {
    if s == [] then [] else [ToLower(s[0])] + Lower(s[1..])
  }

  /** `str.replace(" ", "_")`. */
  function SpacesToUnderscores(s: string): (r: string)
    ensures |r| == |s|
    ensures forall i :: 0 <= i < |s| ==> r[i] == (if s[i] == ' ' then '_' else s[i])
  {
    if s == [] then [] else [if s[0] == ' ' then '_' else s[0]] + SpacesToUnderscores(s[1..])
  }

  /**
   * A normalised header holds no space and no upper-case ASCII letter, and has no
   * whitespace at either end.
   */
  function NormalizeColumn(name: string): (n: string)
    ensures forall i :: 0 <= i < |n| ==> n[i] != ' ' && !IsUpper(n[i])
    ensures n == [] || (!IsSpace(n[0]) && !IsSpace(n[|n| - 1]))
  {
    SpacesToUnderscores(Lower(Strip(name)))
  }

  /** The rename applied to every header of the frame, in place and in order. */
  function NormalizeColumns(names: seq<string>): (r: seq<string>)
    ensures |r| == |names|
    ensures forall i :: 0 <= i < |names| ==> r[i] == NormalizeColumn(names[i])
  {
    seq(|names|, i requires 0 <= i < |names| => NormalizeColumn(names[i]))
  }

  /** Normalising twice changes nothing more than normalising once. */
  lemma {:induction false} NormalizeColumnIdempotent(name: string)
    ensures NormalizeColumn(NormalizeColumn(name)) == NormalizeColumn(name)
  {
    var n := NormalizeColumn(name);
    assert StripLeading(n) == n;
    assert StripTrailing(n) == n;
    assert Strip(n) == n;
    assert Lower(n) == n;
    assert SpacesToUnderscores(n) == n;
  }
}
