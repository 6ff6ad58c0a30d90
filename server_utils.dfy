/** The `Content-Disposition` header the server sends with a download
    (section 4.3 of RFC 6266): an ASCII fallback name in `filename`, and the
    original name, UTF-8 encoded and percent-encoded, in `filename*`
    (RFC 5987). */
module ServerUtils {

  predicate IsAlnum(c: char)
  {
    ('A' <= c <= 'Z') || ('a' <= c <= 'z') || ('0' <= c <= '9')
  }

  /** The characters the fallback name keeps: `[A-Za-z0-9._-]`. */
  predicate FallbackChar(c: char)
  {
    IsAlnum(c) || c == '.' || c == '_' || c == '-'
  }

  // ---------------------------------------------------------------------
  // Extension and base name
  // ---------------------------------------------------------------------

  /** The length of the run of ASCII letters and digits that ends `s`. */
  function TrailingAlnum(s: string): (k: nat)
    ensures k <= |s|
    ensures forall j :: |s| - k <= j < |s| ==> IsAlnum(s[j])
    ensures k < |s| ==> !IsAlnum(s[|s| - k - 1])
  {
    if s == [] || !IsAlnum(s[|s| - 1]) then 0
    else TrailingAlnum(s[..|s| - 1]) + 1
  }

  /** `re.search(r"(\.[A-Za-z0-9]+)$", name)`: the match, or "" when there is none. */
  function Ext(s: string): string
  {
    var k := TrailingAlnum(s);
    if k > 0 && |s| > k && s[|s| - k - 1] == '.' then s[|s| - k - 1..] else ""
  }

  /** A dot at `i` followed by letters and digits up to the end of `s`. */
  ghost predicate ExtAt(s: string, i: int)
  {
    0 <= i < |s| - 1 && s[i] == '.' && forall j :: i < j < |s| ==> IsAlnum(s[j])
  }

  /** The extension is found exactly when a dot is followed by one or more
      letters and digits up to the end of the name, and it is then that
      suffix (there is only one such dot). */
  lemma ExtSpec(s: string)
    ensures Ext(s) != "" <==> exists i :: ExtAt(s, i)
    ensures forall i :: ExtAt(s, i) ==> Ext(s) == s[i..]
  {
    var k := TrailingAlnum(s);
    forall i | ExtAt(s, i)
      ensures i == |s| - k - 1
    {
      assert !IsAlnum(s[i]);
      assert i < |s| - k;
      assert !IsAlnum(s[|s| - k - 1]);
    }
    if Ext(s) != "" {
      assert ExtAt(s, |s| - k - 1);
    }
  }

  /** `original_name[:-len(ext)] if ext else original_name`. */
  function Base(s: string): string
  {
    s[..|s| - |Ext(s)|]
  }

  lemma BaseExt(s: string)
    ensures Base(s) + Ext(s) == s
  {
    assert s == s[..|s| - |Ext(s)|] + s[|s| - |Ext(s)|..];
  }

  // ---------------------------------------------------------------------
  // Fallback name
  // ---------------------------------------------------------------------

  /** `re.sub(r"[^A-Za-z0-9._-]+", "_", s)`: each run of other characters
      becomes one `_`; `inRun` says the character before `s` was one of them. */
  function SubRuns(s: string, inRun: bool): string
  {
    if s == [] then ""
    else if FallbackChar(s[0]) then [s[0]] + SubRuns(s[1..], false)
    else if inRun then SubRuns(s[1..], true)
    else "_" + SubRuns(s[1..], true)
  }

  /** Every character of `s` is one of `[A-Za-z0-9._-]`. */
  ghost predicate AllFallback(s: string)
  {
    forall i :: 0 <= i < |s| ==> FallbackChar(s[i])
  }

  /** Only `[A-Za-z0-9._-]` comes out, never more characters than went in,
      and a name made of those characters only is kept as it is. */
  lemma {:induction false} SubRunsSpec(s: string, inRun: bool)
    ensures AllFallback(SubRuns(s, inRun))
    ensures |SubRuns(s, inRun)| <= |s|
    ensures AllFallback(s) ==> SubRuns(s, inRun) == s
  {
    if s != [] {
      SubRunsSpec(s[1..], !FallbackChar(s[0]));
      var t := SubRuns(s[1..], !FallbackChar(s[0]));
      var r := SubRuns(s, inRun);
      if FallbackChar(s[0]) {
        assert r == [s[0]] + t;
      } else if !inRun {
        assert r == "_" + t;
      }
      forall i | 0 <= i < |r|
        ensures FallbackChar(r[i])
      {
        if r != t && i > 0 {
          assert r[i] == t[i - 1];
        }
      }
      assert AllFallback(s) ==> AllFallback(s[1..]) && FallbackChar(s[0]);
    }
  }

  function StripLeft(s: string, c: char): (r: string)
    ensures |r| <= |s|
    ensures r == [] || r[0] != c
    ensures r == s[|s| - |r|..]
  {
    if s != [] && s[0] == c then StripLeft(s[1..], c) else s
  }

  function StripRight(s: string, c: char): (r: string)
    ensures |r| <= |s|
    ensures r == [] || r[|r| - 1] != c
    ensures r == s[..|r|]
  {
    if s != [] && s[|s| - 1] == c then StripRight(s[..|s| - 1], c) else s
  }

  /** `s.strip(c)`. */
  function Strip(s: string, c: char): string
  {
    StripRight(StripLeft(s, c), c)
  }

  /** The base of the ASCII fallback name: runs replaced, `_` stripped,
      "download" when nothing is left, and cut to 150 characters plus `_`
      when longer. */
  function FallbackBase(base: string): string
  {
    var t := Strip(SubRuns(base, false), '_');
    var b := if t == "" then "download" else t;
    if |b| > 150 then b[..150] + "_" else b
  }

  /** Stripping `_` keeps only characters of the stripped string and
      leaves no `_` at either end. */
  lemma StripSpec(u: string)
    requires AllFallback(u)
    ensures var t := Strip(u, '_');
      AllFallback(t) && (t != "" ==> t[0] != '_' && t[|t| - 1] != '_')
  {
    var l := StripLeft(u, '_');
    var t := StripRight(l, '_');
    forall i | 0 <= i < |l| ensures FallbackChar(l[i]) {
      assert l[i] == u[|u| - |l| + i];
    }
    forall i | 0 <= i < |t| ensures FallbackChar(t[i]) {
      assert t[i] == l[i];
    }
    if t != "" {
      assert t[0] == l[0];
    }
  }

  /** Cutting a long name to 150 characters and `_`. */
  lemma CutSpec(b: string)
    requires AllFallback(b) && |b| > 150
    ensures AllFallback(b[..150] + "_")
  {
    var f := b[..150] + "_";
    forall i | 0 <= i < |f| ensures FallbackChar(f[i]) {
      if i < 150 {
        assert f[i] == b[i];
      }
    }
  }

  /** The fallback base is never empty, holds only `[A-Za-z0-9._-]`, is at
      most 151 characters long, does not start with `_`, and ends in `_`
      only when it was cut. */
  lemma FallbackBaseSpec(base: string)
    ensures var f := FallbackBase(base);
      && 0 < |f| <= 151
      && AllFallback(f)
      && f[0] != '_'
      && (|f| <= 150 ==> f[|f| - 1] != '_')
  {
    var u := SubRuns(base, false);
    SubRunsSpec(base, false);
    StripSpec(u);
    var t := Strip(u, '_');
    var b := if t == "" then "download" else t;
    assert AllFallback(b);
    if |b| > 150 {
      CutSpec(b);
    }
  }

  /** A name whose base is already a clean fallback keeps it. */
  lemma FallbackBaseClean(base: string)
    requires 0 < |base| <= 150 && base[0] != '_' && base[|base| - 1] != '_'
    requires AllFallback(base)
    ensures FallbackBase(base) == base
  {
    SubRunsSpec(base, false);
  }

  // ---------------------------------------------------------------------
  // Percent-encoding
  // ---------------------------------------------------------------------

  /** The characters `urllib.parse.quote` never encodes. */
  predicate Unreserved(c: char)
  {
    IsAlnum(c) || c == '_' || c == '.' || c == '-' || c == '~'
  }

  predicate Bytes(bs: seq<int>)
  {
    forall i :: 0 <= i < |bs| ==> 0 <= bs[i] < 256
  }

  /** The UTF-8 encoding of one character (a Unicode scalar value). */
  function Utf8(c: char): (r: seq<int>)
    ensures 1 <= |r| <= 4
    ensures Bytes(r)
    ensures (c as int < 0x80) <==> |r| == 1
  {
    var cp := c as int;
    if cp < 0x80 then [cp]
    else if cp < 0x800 then [0xC0 + cp / 64, 0x80 + cp % 64]
    else if cp < 0x10000 then [0xE0 + cp / 4096, 0x80 + (cp / 64) % 64, 0x80 + cp % 64]
    else [0xF0 + cp / 262144, 0x80 + (cp / 4096) % 64, 0x80 + (cp / 64) % 64, 0x80 + cp % 64]
  }

  function Utf8String(s: string): seq<int>
  {
    if s == [] then [] else Utf8(s[0]) + Utf8String(s[1..])
  }

  function HexDigit(d: int): char
    requires 0 <= d < 16
  {
    if d < 10 then (('0' as int) + d) as char else (('A' as int) + d - 10) as char
  }

  predicate IsHex(c: char)
  {
    ('0' <= c <= '9') || ('A' <= c <= 'F') || ('a' <= c <= 'f')
  }

  function HexValue(c: char): int
    requires IsHex(c)
  {
    if '0' <= c <= '9' then c as int - '0' as int
    else if 'A' <= c <= 'F' then c as int - 'A' as int + 10
    else c as int - 'a' as int + 10
  }

  /** `%XX` with upper-case hexadecimal digits. */
  function Pct(b: int): string
    requires 0 <= b < 256
  {
    ['%', HexDigit(b / 16), HexDigit(b % 16)]
  }

  function PctBytes(bs: seq<int>): string
    requires Bytes(bs)
  {
    if bs == [] then "" else Pct(bs[0]) + PctBytes(bs[1..])
  }

  /** One character as `quote(s, safe)` writes it: kept when unreserved or
      (with `keepSlash`, the default `safe='/'`) a slash, else each byte of
      its UTF-8 encoding as `%XX`. */
  function QuoteChar(c: char, keepSlash: bool): string
  {
    if Unreserved(c) || (keepSlash && c == '/') then [c] else PctBytes(Utf8(c))
  }

  /** `urllib.parse.quote(s)` (`keepSlash`) or `quote(s, safe='')`. */
  function Quote(s: string, keepSlash: bool): string
  {
    if s == [] then "" else QuoteChar(s[0], keepSlash) + Quote(s[1..], keepSlash)
  }

  /** Percent-decoding into bytes (the receiving side of `filename*`). */
  function PercentDecode(q: string): seq<int>
  {
    if q == [] then []
    else if |q| >= 3 && q[0] == '%' && IsHex(q[1]) && IsHex(q[2]) then
      [HexValue(q[1]) * 16 + HexValue(q[2])] + PercentDecode(q[3..])
    else [q[0] as int] + PercentDecode(q[1..])
  }

  lemma HexRoundTrip(d: int)
    requires 0 <= d < 16
    ensures IsHex(HexDigit(d)) && HexValue(HexDigit(d)) == d
  {
  }

  /** One escape decodes to its byte. */
  lemma DecodePct(b: int, x: string)
    requires 0 <= b < 256
    ensures PercentDecode(Pct(b) + x) == [b] + PercentDecode(x)
  {
    HexRoundTrip(b / 16);
    HexRoundTrip(b % 16);
    var q := Pct(b) + x;
    assert q[0] == '%' && q[1] == HexDigit(b / 16) && q[2] == HexDigit(b % 16);
    assert q[3..] == x;
    assert IsHex(q[1]) && IsHex(q[2]);
    assert HexValue(q[1]) * 16 + HexValue(q[2]) == b;
  }

  lemma {:induction false} DecodePctBytes(bs: seq<int>, rest: string)
    requires Bytes(bs)
    ensures PercentDecode(PctBytes(bs) + rest) == bs + PercentDecode(rest)
  {
    if bs != [] {
      var b := bs[0];
      var x := PctBytes(bs[1..]) + rest;
      assert PctBytes(bs) + rest == Pct(b) + x;
      DecodePct(b, x);
      DecodePctBytes(bs[1..], rest);
      assert PercentDecode(x) == bs[1..] + PercentDecode(rest);
      assert bs == [b] + bs[1..];
      assert [b] + (bs[1..] + PercentDecode(rest)) == ([b] + bs[1..]) + PercentDecode(rest);
    } else {
      assert PctBytes(bs) + rest == rest;
    }
  }

  /** Decoding the percent-encoded name gives back its UTF-8 bytes. */
  lemma {:induction false} QuoteRoundTrip(s: string, keepSlash: bool)
    ensures PercentDecode(Quote(s, keepSlash)) == Utf8String(s)
  {
    if s != [] {
      var c := s[0];
      QuoteRoundTrip(s[1..], keepSlash);
      if Unreserved(c) || (keepSlash && c == '/') {
        assert Quote(s, keepSlash) == [c] + Quote(s[1..], keepSlash);
      } else {
        DecodePctBytes(Utf8(c), Quote(s[1..], keepSlash));
      }
    }
  }

  /** The characters RFC 5987 allows unencoded in an extended value. */
  predicate AttrChar(c: char)
  {
    IsAlnum(c) || c == '!' || c == '#' || c == '$' || c == '&' || c == '+' || c == '-' ||
    c == '.' || c == '^' || c == '_' || c == '`' || c == '|' || c == '~'
  }

  lemma {:induction false} PctBytesChars(bs: seq<int>)
    requires Bytes(bs)
    ensures forall c :: c in PctBytes(bs) ==> c == '%' || IsHex(c)
  {
    if bs != [] {
      PctBytesChars(bs[1..]);
      HexRoundTrip(bs[0] / 16);
      HexRoundTrip(bs[0] % 16);
    }
  }

  /** With `safe=''` every character of the encoded name is an attr-char
      or part of a `%XX` escape. */
  lemma {:induction false} QuoteAttrChars(s: string)
    ensures forall c :: c in Quote(s, false) ==> AttrChar(c) || c == '%'
  {
    if s != [] {
      QuoteAttrChars(s[1..]);
      if !Unreserved(s[0]) {
        PctBytesChars(Utf8(s[0]));
      }
    }
  }

  /** With the default `safe='/'` a slash is written as it is, and a slash
      is not an attr-char: the name "a/b" gives an extended value RFC 5987
      does not allow. */
  lemma QuoteKeepsSlash()
    ensures Quote("a/b", true) == "a/b"
    ensures '/' in Quote("a/b", true) && !AttrChar('/')
    ensures Quote("a/b", false) == "a%2Fb"
  {
    assert Quote("b", true) == "b" && Quote("b", false) == "b";
    assert "a/b"[1..] == "/b" && "/b"[1..] == "b";
    assert Quote("/b", true) == "/b";
    assert Utf8('/') == [47];
    assert PctBytes([47]) == "%2F";
    assert Quote("/b", false) == "%2Fb";
  }

  // ---------------------------------------------------------------------
  // The header
  // ---------------------------------------------------------------------

  /** The fallback name: the fallback base and the extension, ".pdf" when
      there is none. */
  function Fallback(name: string): string
  {
    FallbackBase(Base(name)) + (if Ext(name) == "" then ".pdf" else Ext(name))
  }

  /** `build_content_disposition` as written: the extended value is
      `quote(original_name)`, which keeps `/`. */
  function BuildContentDispositionAsWritten(name: string): string
  {
    "attachment; filename=\"" + Fallback(name) + "\"; filename*=UTF-8''" + Quote(name, true)
  }

  /** `build_content_disposition` with the extended value encoded with
      `safe=''`, so that every character is allowed by RFC 5987. */
  function BuildContentDisposition(name: string): string
  {
    "attachment; filename=\"" + Fallback(name) + "\"; filename*=UTF-8''" + Quote(name, false)
  }

  lemma AllFallbackConcat(a: string, b: string)
    requires AllFallback(a) && AllFallback(b)
    ensures AllFallback(a + b)
  {
    forall i | 0 <= i < |a + b|
      ensures FallbackChar((a + b)[i])
    {
      if i >= |a| {
        assert (a + b)[i] == b[i - |a|];
      }
    }
  }

  /** The extension is a dot and letters and digits. */
  lemma ExtChars(name: string)
    ensures AllFallback(Ext(name))
  {
    var e := Ext(name);
    if e != "" {
      var k := TrailingAlnum(name);
      forall j | 0 <= j < |e|
        ensures FallbackChar(e[j])
      {
        assert e[j] == name[|name| - k - 1 + j];
      }
    }
  }

  /** The fallback name is a valid quoted string (no quote, no backslash),
      made of ASCII letters, digits and `._-`, and keeps the extension. */
  lemma FallbackSpec(name: string)
    ensures var f := Fallback(name);
      && AllFallback(f)
      && (Ext(name) != "" ==> f[|f| - |Ext(name)|..] == Ext(name))
      && (Ext(name) == "" ==> f[|f| - 4..] == ".pdf")
  {
    FallbackBaseSpec(Base(name));
    ExtChars(name);
    var fb := FallbackBase(Base(name));
    var e := if Ext(name) == "" then ".pdf" else Ext(name);
    assert AllFallback(e);
    AllFallbackConcat(fb, e);
    var f := fb + e;
    assert f == Fallback(name);
    assert f[|f| - |e|..] == e;
  }

  /** The header names the fallback name in `filename` and the percent-encoded
      original name in `filename*`, whose decoding is the name's UTF-8 bytes
      and whose every character RFC 5987 allows. */
  lemma BuildContentDispositionSpec(name: string)
    ensures var h := BuildContentDisposition(name);
      var f := Fallback(name);
      var q := Quote(name, false);
      && h == "attachment; filename=\"" + f + "\"; filename*=UTF-8''" + q
      && AllFallback(f) && '"' !in f && '\\' !in f
      && PercentDecode(q) == Utf8String(name)
      && (forall c :: c in q ==> AttrChar(c) || c == '%')
  {
    FallbackSpec(name);
    var f := Fallback(name);
    assert '"' !in f && '\\' !in f by {
      forall i | 0 <= i < |f| ensures f[i] != '"' && f[i] != '\\' {
        assert FallbackChar(f[i]);
      }
    }
    QuoteRoundTrip(name, false);
    QuoteAttrChars(name);
  }
}
