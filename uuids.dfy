/**
 * The two pieces of Python's `uuid` module the account core relies on:
 * `str(uuid)`, which writes a UUID as 32 lower-case hex digits grouped
 * 8-4-4-4-12, and `uuid.UUID(s)`, which reads one back after dropping
 * `urn:` / `uuid:` markers, surrounding braces and every hyphen.
 */
module Uuids {
  import opened Wrappers

  /** 16 to the power k. */
  function Pow16(k: nat): (p: nat)
    ensures p > 0
  {
    if k == 0 then 1 else 16 * Pow16(k - 1)
  }

  /** A UUID is its 128-bit integer value, as `uuid.UUID` stores it. */
  type Uuid = n: nat | n < Pow16(32)

  predicate IsHexChar(c: char) {
    '0' <= c <= '9' || 'a' <= c <= 'f' || 'A' <= c <= 'F'
  }

  /** The characters `str(uuid)` writes for digits. */
  predicate IsLowerHexChar(c: char) {
    '0' <= c <= '9' || 'a' <= c <= 'f'
  }

  predicate AllHex(s: string) {
    forall i :: 0 <= i < |s| ==> IsHexChar(s[i])
  }

  function HexValue(c: char): (v: nat)
    requires IsHexChar(c)
    ensures v < 16
  {
    if '0' <= c <= '9' then c as nat - '0' as nat
    else if 'a' <= c <= 'f' then c as nat - 'a' as nat + 10
    else c as nat - 'A' as nat + 10
  }

  /** The lower-case digit for d; reading it back gives d. */
  function HexDigit(d: nat): (c: char)
    requires d < 16
    ensures IsLowerHexChar(c) && IsHexChar(c) && HexValue(c) == d
  {
    if d < 10 then ('0' as int + d) as char else ('a' as int + d - 10) as char
  }

  /** The k lowest hex digits of n, most significant first (`'%032x' % n` for k = 32). */
  function ToHex(n: nat, k: nat): (s: string)
    ensures |s| == k
    ensures forall i :: 0 <= i < k ==> IsLowerHexChar(s[i])
  {
    if k == 0 then [] else ToHex(n / 16, k - 1) + [HexDigit(n % 16)]
  }

  /** The value of a string of hex digits, either case (`int(s, 16)` on such a string). */
  function FromHex(s: string): (n: nat)
    requires AllHex(s)
    ensures n < Pow16(|s|)
  {
    if s == [] then 0 else FromHex(s[..|s| - 1]) * 16 + HexValue(s[|s| - 1])
  }

  lemma {:induction false} FromHexToHex(n: nat, k: nat)
    requires n < Pow16(k)
    ensures AllHex(ToHex(n, k)) && FromHex(ToHex(n, k)) == n
  {
    if k > 0 {
      var s := ToHex(n, k);
      assert s[..k - 1] == ToHex(n / 16, k - 1);
      FromHexToHex(n / 16, k - 1);
    }
  }

  /** 32 hex digits grouped 8-4-4-4-12 with hyphens between the groups. */
  function Hyphenate(h: string): (s: string)
    requires |h| == 32
    ensures |s| == 36
  {
    h[..8] + "-" + h[8..12] + "-" + h[12..16] + "-" + h[16..20] + "-" + h[20..]
  }

  /** `str(u)`: 36 characters, hyphens at positions 8, 13, 18 and 23, lower-case hex digits elsewhere. */
  function Format(u: Uuid): (s: string)
    ensures |s| == 36
    ensures forall i :: 0 <= i < 36 ==> (s[i] == '-' <==> i in {8, 13, 18, 23})
    ensures forall i :: 0 <= i < 36 && s[i] != '-' ==> IsLowerHexChar(s[i])
  {
    Hyphenate(ToHex(u, 32))
  }

  /** `s.replace(pat, '')`: every non-overlapping occurrence of pat, scanned left to right, removed. */
  function RemoveAll(s: string, pat: string): (r: string)
    requires pat != []
    ensures |r| <= |s|
    decreases |s|
  {
    if s == [] then []
    else if pat <= s then RemoveAll(s[|pat|..], pat)
    else [s[0]] + RemoveAll(s[1..], pat)
  }

  predicate IsBrace(c: char) {
    c == '{' || c == '}'
  }

  function StripLeadingBraces(s: string): (r: string)
    ensures |r| <= |s|
  {
    if s != [] && IsBrace(s[0]) then StripLeadingBraces(s[1..]) else s
  }

  function StripTrailingBraces(s: string): (r: string)
    ensures |r| <= |s|
  {
    if s != [] && IsBrace(s[|s| - 1]) then StripTrailingBraces(s[..|s| - 1]) else s
  }

  /** `s.strip('{}')`. */
  function StripBraces(s: string): (r: string)
    ensures |r| <= |s|
  {
    StripTrailingBraces(StripLeadingBraces(s))
  }

  /** `s.replace('-', '')`. */
  function RemoveHyphens(s: string): (r: string)
    ensures |r| <= |s|
    ensures forall i :: 0 <= i < |r| ==> r[i] != '-'
  {
    if s == [] then [] else (if s[0] == '-' then [] else [s[0]]) + RemoveHyphens(s[1..])
  }

  /**
   * `uuid.UUID(s)` as a total function: None where Python raises ValueError.
   * A string too short to hold 32 digits never parses, and a result is always
   * the value of exactly 32 hex digits.
   */
  function Parse(s: string): (r: Option<Uuid>)
    ensures |s| < 32 ==> r.None?
    ensures r.Some? ==> exists h :: |h| == 32 && AllHex(h) && r.value == FromHex(h)
  {
    var h := RemoveHyphens(StripBraces(RemoveAll(RemoveAll(s, "urn:"), "uuid:")));
    if |h| == 32 && AllHex(h) then Some(FromHex(h)) else None
  }

  lemma {:induction false} RemoveAllWithoutColon(s: string, pat: string)
    requires pat != [] && pat[|pat| - 1] == ':'
    requires forall i :: 0 <= i < |s| ==> s[i] != ':'
    ensures RemoveAll(s, pat) == s
    decreases |s|
  {
    if s != [] {
      if pat <= s {
        assert false;
      } else {
        RemoveAllWithoutColon(s[1..], pat);
        assert [s[0]] + s[1..] == s;
      }
    }
  }

  lemma {:induction false} RemoveHyphensAppend(a: string, b: string)
    ensures RemoveHyphens(a + b) == RemoveHyphens(a) + RemoveHyphens(b)
  {
    if a == [] {
      assert a + b == b;
    } else {
      var head := if a[0] == '-' then [] else [a[0]];
      assert (a + b)[0] == a[0];
      assert (a + b)[1..] == a[1..] + b;
      RemoveHyphensAppend(a[1..], b);
      assert RemoveHyphens(a + b) == head + (RemoveHyphens(a[1..]) + RemoveHyphens(b));
    }
  }

  lemma {:induction false} RemoveHyphensWithoutHyphen(a: string)
    requires forall i :: 0 <= i < |a| ==> a[i] != '-'
    ensures RemoveHyphens(a) == a
  {
    if a != [] {
      RemoveHyphensWithoutHyphen(a[1..]);
      assert [a[0]] + a[1..] == a;
    }
  }

  lemma RemoveHyphensAround(a: string, b: string)
    requires forall i :: 0 <= i < |a| ==> a[i] != '-'
    ensures RemoveHyphens(a + "-" + b) == a + RemoveHyphens(b)
  {
    var c := a + "-";
    RemoveHyphensAppend(c, b);
    RemoveHyphensAppend(a, "-");
    RemoveHyphensWithoutHyphen(a);
    assert RemoveHyphens("-") == [];
    assert RemoveHyphens(c) == a;
  }

  lemma RemoveHyphensHyphenate(h: string)
    requires |h| == 32
    requires forall i :: 0 <= i < 32 ==> h[i] != '-'
    ensures RemoveHyphens(Hyphenate(h)) == h
  {
    var p0, p1, p2, p3, p4 := h[..8], h[8..12], h[12..16], h[16..20], h[20..];
    var r3 := p3 + "-" + p4;
    var r2 := p2 + "-" + r3;
    var r1 := p1 + "-" + r2;
    var r0 := p0 + "-" + r1;
    assert Hyphenate(h) == r0;
    RemoveHyphensWithoutHyphen(p4);
    RemoveHyphensAround(p3, p4);
    RemoveHyphensAround(p2, r3);
    RemoveHyphensAround(p1, r2);
    RemoveHyphensAround(p0, r1);
    assert p0 + (p1 + (p2 + (p3 + p4))) == h;
  }

  /** `uuid.UUID(str(u)) == u`: the text of a UUID reads back as the same UUID. */
  lemma ParseFormat(u: Uuid)
    ensures Parse(Format(u)) == Some(u)
  {
    var h := ToHex(u, 32);
    var s := Format(u);
    RemoveAllWithoutColon(s, "urn:");
    RemoveAllWithoutColon(s, "uuid:");
    assert StripLeadingBraces(s) == s;
    assert StripTrailingBraces(s) == s;
    RemoveHyphensHyphenate(h);
    FromHexToHex(u, 32);
  }
}
