/**
 * The readable form id generator: a slug of the title, a "~", and six
 * lowercase hex digits of three random bytes (the bytes are a parameter).
 * Lowercasing and trimming are modelled on ASCII only.
 */
module Utils {
  import Strings

  type byte = x: int | 0 <= x < 256

  /** toLowerCase, on ASCII letters. */
  function LowerChar(c: char): char {
    if 'A' <= c <= 'Z' then (c as int + 32) as char else c
  }

  function Lower(s: string): (r: string)
    ensures |r| == |s| && forall i | 0 <= i < |s| :: r[i] == LowerChar(s[i])
  {
    if s == [] then [] else [LowerChar(s[0])] + Lower(s[1..])
  }

  /** The characters the pattern [a-z0-9] matches. */
  predicate IsAlnum(c: char) {
    'a' <= c <= 'z' || '0' <= c <= '9'
  }

  /** The characters a slug is made of. */
  predicate IsSlugChar(c: char) {
    IsAlnum(c) || c == '-'
  }

  predicate NoDoubleHyphen(s: string) {
    forall i | 0 <= i < |s| - 1 :: !(s[i] == '-' && s[i + 1] == '-')
  }

  /** A string made of slug characters, with no "--" and no hyphen at either end. */
  predicate IsCleanSlug(s: string) {
    && (forall i | 0 <= i < |s| :: IsSlugChar(s[i]))
    && NoDoubleHyphen(s)
    && (s != [] ==> s[0] != '-' && s[|s| - 1] != '-')
  }

  /** Drops the rest of a run of characters outside [a-z0-9]. */
  function SkipNonAlnum(s: string): (r: string)
    ensures |r| <= |s| && r == s[|s| - |r|..]
    ensures r != [] ==> IsAlnum(r[0])
    ensures forall i | 0 <= i < |s| - |r| :: !IsAlnum(s[i])
  {
    if s == [] || IsAlnum(s[0]) then s else SkipNonAlnum(s[1..])
  }

  /** replace(/[^a-z0-9]+/g, "-"): every maximal run of other characters becomes one hyphen. */
  function Hyphenate(s: string): (r: string)
    ensures s != [] ==> r != [] && (IsAlnum(s[0]) ==> r[0] == s[0]) && (!IsAlnum(s[0]) ==> r[0] == '-')
    ensures s == [] ==> r == []
    decreases |s|
  {
    if s == [] then []
    else if IsAlnum(s[0]) then [s[0]] + Hyphenate(s[1..])
    else "-" + Hyphenate(SkipNonAlnum(s[1..]))
  }

  /** The hyphenation leaves only slug characters and never two hyphens in a row. */
  lemma {:induction false} HyphenateShape(s: string)
    ensures forall i | 0 <= i < |Hyphenate(s)| :: IsSlugChar(Hyphenate(s)[i])
    ensures NoDoubleHyphen(Hyphenate(s))
    decreases |s|
  {
    if s != [] {
      var c, rest := HyphenateStep(s);
      HyphenateShape(rest);
      var h, t := Hyphenate(s), Hyphenate(rest);
      forall i | 0 <= i < |h| ensures IsSlugChar(h[i]) {
        if i > 0 { assert h[i] == t[i - 1]; }
      }
      forall i | 0 <= i < |h| - 1 ensures !(h[i] == '-' && h[i + 1] == '-') {
        if i > 0 { assert h[i] == t[i - 1] && h[i + 1] == t[i]; }
      }
    }
  }

  /** The characters of [a-z0-9] in a string, in order. */
  function Alnums(s: string): string {
    if s == [] then [] else (if IsAlnum(s[0]) then [s[0]] else []) + Alnums(s[1..])
  }

  /** A skipped run holds no alphanumeric. */
  lemma {:induction false} SkipKeepsAlnums(s: string)
    ensures Alnums(SkipNonAlnum(s)) == Alnums(s)
  {
    if s != [] && !IsAlnum(s[0]) {
      SkipKeepsAlnums(s[1..]);
    }
  }

  /** The hyphenation keeps every alphanumeric, in order, and adds none: only the separator runs change. */
  lemma {:induction false} HyphenateKeepsAlnums(s: string)
    ensures Alnums(Hyphenate(s)) == Alnums(s)
    decreases |s|
  {
    if s != [] {
      if IsAlnum(s[0]) {
        HyphenateAlnumHead(s);
        HyphenateKeepsAlnums(s[1..]);
        assert ([s[0]] + Hyphenate(s[1..]))[1..] == Hyphenate(s[1..]);
      } else {
        HyphenateSeparatorHead(s);
        var t := SkipNonAlnum(s[1..]);
        HyphenateKeepsAlnums(t);
        SkipKeepsAlnums(s[1..]);
        assert ("-" + Hyphenate(t))[1..] == Hyphenate(t);
      }
    }
  }

  /** One step of the hyphenation: the first output character, and the input left to hyphenate. */
  lemma HyphenateStep(s: string) returns (c: char, rest: string)
    requires s != []
    ensures Hyphenate(s) == [c] + Hyphenate(rest) && |rest| < |s|
    ensures IsSlugChar(c)
    ensures c == '-' ==> rest == [] || IsAlnum(rest[0])
  {
    if IsAlnum(s[0]) {
      c, rest := s[0], s[1..];
    } else {
      c, rest := '-', SkipNonAlnum(s[1..]);
    }
  }

  /** replace(/^-+/, ""). */
  function DropLeadingHyphens(s: string): (r: string)
    ensures |r| <= |s| && r == s[|s| - |r|..]
    ensures r != [] ==> r[0] != '-'
    ensures forall i | 0 <= i < |s| - |r| :: s[i] == '-'
    ensures s != [] && s[0] != '-' ==> r == s
  {
    if s == [] || s[0] != '-' then s else DropLeadingHyphens(s[1..])
  }

  /** replace(/-+$/, ""). */
  function DropTrailingHyphens(s: string): (r: string)
    ensures |r| <= |s| && r == s[..|r|]
    ensures r != [] ==> r[|r| - 1] != '-'
    ensures forall i | |r| <= i < |s| :: s[i] == '-'
    ensures s != [] && s[|s| - 1] != '-' ==> r == s
  {
    if s == [] || s[|s| - 1] != '-' then s else DropTrailingHyphens(s[..|s| - 1])
  }

  /** How many hyphens the leading strip removes. */
  function LeadingHyphens(s: string): (k: nat)
    ensures k <= |s|
  {
    |s| - |DropLeadingHyphens(s)|
  }

  /** replace(/^-+|-+$/g, ""): strips the hyphens at both ends, keeping the middle as it is. */
  function StripHyphens(s: string): (r: string)
    ensures r != [] ==> r[0] != '-' && r[|r| - 1] != '-'
    ensures LeadingHyphens(s) + |r| <= |s| && r == s[LeadingHyphens(s)..LeadingHyphens(s) + |r|]
    ensures (s == [] || (s[0] != '-' && s[|s| - 1] != '-')) ==> r == s
  {
    var t := DropLeadingHyphens(s);
    var r := DropTrailingHyphens(t);
    StripFacts(s, t, r);
    r
  }

  /** What stripping both ends gives, from what each one-sided strip gives. */
  lemma StripFacts(s: string, t: string, r: string)
    requires |t| <= |s| && t == s[|s| - |t|..]
    requires t != [] ==> t[0] != '-'
    requires s != [] && s[0] != '-' ==> t == s
    requires |r| <= |t| && r == t[..|r|]
    requires r != [] ==> r[|r| - 1] != '-'
    requires t != [] && t[|t| - 1] != '-' ==> r == t
    ensures r != [] ==> r[0] != '-' && r[|r| - 1] != '-'
    ensures var k := |s| - |t|; k + |r| <= |s| && r == s[k..k + |r|]
    ensures (s == [] || (s[0] != '-' && s[|s| - 1] != '-')) ==> r == s
  {
    if r != [] {
      assert r[0] == t[0];
    }
    if s != [] && s[0] != '-' && s[|s| - 1] != '-' {
      assert t[|t| - 1] == s[|s| - 1];
    }
  }

  /** replace(/-{2,}/g, "-"): every run of two or more hyphens becomes one. */
  function CollapseHyphens(s: string): (r: string)
    ensures NoDoubleHyphen(r)
    ensures forall i | 0 <= i < |r| :: r[i] in s
    ensures NoDoubleHyphen(s) ==> r == s
    ensures s != [] ==> r != [] && (s[0] != '-' ==> r[0] == s[0]) && (s[0] == '-' ==> r[0] == '-')
    ensures s != [] ==> r[|r| - 1] == s[|s| - 1]
  {
    if |s| >= 2 && s[0] == '-' && s[1] == '-' then CollapseHyphens(s[1..])
    else if s == [] then []
    else
      var rest := CollapseHyphens(s[1..]);
      CollapseCons(s, rest);
      [s[0]] + rest
  }

  /** The step of CollapseHyphens that keeps the first character. */
  lemma CollapseCons(s: string, rest: string)
    requires s != [] && !(|s| >= 2 && s[0] == '-' && s[1] == '-')
    requires NoDoubleHyphen(rest)
    requires forall i | 0 <= i < |rest| :: rest[i] in s[1..]
    requires NoDoubleHyphen(s[1..]) ==> rest == s[1..]
    requires |s| >= 2 ==> rest != [] && (s[1] != '-' ==> rest[0] == s[1]) && (s[1] == '-' ==> rest[0] == '-')
    requires |s| >= 2 ==> rest[|rest| - 1] == s[|s| - 1]
    requires |s| == 1 ==> rest == []
    ensures var r := [s[0]] + rest;
            && NoDoubleHyphen(r)
            && (forall i | 0 <= i < |r| :: r[i] in s)
            && (NoDoubleHyphen(s) ==> r == s)
            && r[|r| - 1] == s[|s| - 1]
  {
    var r := [s[0]] + rest;
    forall i | 0 <= i < |r| - 1 ensures !(r[i] == '-' && r[i + 1] == '-') {
      if i > 0 {
        assert r[i] == rest[i - 1] && r[i + 1] == rest[i];
      }
    }
    forall i | 0 <= i < |r| ensures r[i] in s {
      if i > 0 {
        assert r[i] == rest[i - 1];
        assert rest[i - 1] in s[1..];
      }
    }
    if NoDoubleHyphen(s) {
      assert NoDoubleHyphen(s[1..]) by {
        forall i | 0 <= i < |s[1..]| - 1 ensures !(s[1..][i] == '-' && s[1..][i + 1] == '-') {
          assert s[1..][i] == s[i + 1] && s[1..][i + 1] == s[i + 2];
        }
      }
      assert r == [s[0]] + s[1..] == s;
    }
  }

  /** slice(0, n). */
  function Take(s: string, n: nat): (r: string)
    ensures |r| <= n && |r| <= |s| && r == s[..|r|]
    ensures |s| <= n ==> r == s
  {
    if |s| <= n then s else s[..n]
  }

  /** The longest slug generateFormId keeps. */
  const MaxSlugLength := 50

  /** A slice of a string keeps its character class and its lack of "--". */
  lemma SliceKeepsShape(s: string, a: nat, b: nat)
    requires a <= b <= |s|
    requires forall i | 0 <= i < |s| :: IsSlugChar(s[i])
    requires NoDoubleHyphen(s)
    ensures forall i | 0 <= i < b - a :: IsSlugChar(s[a..b][i])
    ensures NoDoubleHyphen(s[a..b])
  {
    var t := s[a..b];
    forall i | 0 <= i < |t| - 1 ensures !(t[i] == '-' && t[i + 1] == '-') {
      assert t[i] == s[a + i] && t[i + 1] == s[a + i + 1];
    }
  }

  /** The slug before the cut: lowercase, trim, hyphenate, strip end hyphens, collapse. */
  function Uncut(title: string): (r: string)
    ensures forall i | 0 <= i < |r| :: IsSlugChar(r[i])
    ensures NoDoubleHyphen(r)
    ensures r != [] ==> r[0] != '-' && r[|r| - 1] != '-'
  {
    var t := Strings.Trim(Lower(title));
    HyphenateShape(t);
    CleanupKeepsShape(Hyphenate(t));
    CollapseHyphens(StripHyphens(Hyphenate(t)))
  }

  /** The four steps of Uncut, one after the other. */
  lemma UncutSteps(title: string)
    ensures Uncut(title) == CollapseHyphens(StripHyphens(Hyphenate(Strings.Trim(Lower(title)))))
  {
  }

  /** Stripping and collapsing a hyphenated string leaves a clean slug. */
  lemma CleanupKeepsShape(h: string)
    requires forall i | 0 <= i < |h| :: IsSlugChar(h[i])
    requires NoDoubleHyphen(h)
    ensures IsCleanSlug(CollapseHyphens(StripHyphens(h)))
  {
    StripKeepsShape(h);
  }

  /** The slug of generateFormId, as written: the first 50 characters of the uncut slug. */
  function Slug(title: string): (r: string)
    ensures forall i | 0 <= i < |r| :: IsSlugChar(r[i])
    ensures NoDoubleHyphen(r)
    ensures r != [] ==> r[0] != '-'
    ensures |r| <= MaxSlugLength
  {
    var u := Uncut(title);
    var r := Take(u, MaxSlugLength);
    SliceKeepsShape(u, 0, |r|);
    r
  }

  /** `slug || "form"`: the slug as written, or "form" when it is empty. */
  function FinalSlug(title: string): (r: string)
    ensures r != []
    ensures Slug(title) != [] ==> r == Slug(title)
    ensures Slug(title) == [] ==> r == "form"
  {
    var s := Slug(title);
    if s == [] then "form" else s
  }

  /** `slug || "form"` over the corrected slug: "form" or a clean slug. */
  function FinalSlugCorrected(title: string): (r: string)
    ensures r == "form" || IsCleanSlug(r)
    ensures r != [] && r[|r| - 1] != '-'
    ensures SlugCorrected(title) != [] ==> r == SlugCorrected(title)
    ensures SlugCorrected(title) == [] ==> r == "form"
  {
    var s := SlugCorrected(title);
    if s == [] then "form" else s
  }

  function HexDigit(d: nat): (c: char)
    requires d < 16
    ensures '0' <= c <= '9' || 'a' <= c <= 'f'
  {
    if d < 10 then ('0' as int + d) as char else ('a' as int + d - 10) as char
  }

  predicate IsHexDigit(c: char) {
    '0' <= c <= '9' || 'a' <= c <= 'f'
  }

  function HexDigitValue(c: char): (d: nat)
    requires IsHexDigit(c)
    ensures d < 16 && HexDigit(d) == c
  {
    if c <= '9' then c as int - '0' as int else c as int - 'a' as int + 10
  }

  /** b.toString(16).padStart(2, "0"): two lowercase hex digits, high nibble first. */
  function HexByte(b: byte): (r: string)
    ensures |r| == 2 && IsHexDigit(r[0]) && IsHexDigit(r[1])
  {
    [HexDigit(b / 16), HexDigit(b % 16)]
  }

  /** Reading the two digits back gives the byte. */
  lemma HexByteRoundTrip(b: byte)
    ensures var h := HexByte(b); 16 * HexDigitValue(h[0]) + HexDigitValue(h[1]) == b
  {
    var h := HexByte(b);
    HexDigitInjective(HexDigitValue(h[0]), b / 16);
    HexDigitInjective(HexDigitValue(h[1]), b % 16);
  }

  lemma HexDigitInjective(d: nat, e: nat)
    requires d < 16 && e < 16 && HexDigit(d) == HexDigit(e)
    ensures d == e
  {
  }

  /** The three bytes as hex, cut to six characters. */
  function RandomHex(b0: byte, b1: byte, b2: byte): (r: string)
    ensures |r| == 6 && forall i | 0 <= i < 6 :: IsHexDigit(r[i])
  {
    (HexByte(b0) + HexByte(b1) + HexByte(b2))[..6]
  }

  function Occurrences(s: string, c: char): nat {
    if s == [] then 0 else (if s[0] == c then 1 else 0) + Occurrences(s[1..], c)
  }

  lemma {:induction false} OccurrencesAppend(a: string, b: string, c: char)
    ensures Occurrences(a + b, c) == Occurrences(a, c) + Occurrences(b, c)
  {
    if a != [] {
      assert (a + b)[0] == a[0] && (a + b)[1..] == a[1..] + b;
      OccurrencesAppend(a[1..], b, c);
    } else {
      assert a + b == b;
    }
  }

  lemma {:induction false} OccurrencesNone(s: string, c: char)
    requires forall i | 0 <= i < |s| :: s[i] != c
    ensures Occurrences(s, c) == 0
  {
    if s != [] {
      OccurrencesNone(s[1..], c);
    }
  }

  /** generateFormId: the final slug, "~", and the random hex. */
  function GenerateFormId(title: string, b0: byte, b1: byte, b2: byte): (r: string)
    ensures |r| == |FinalSlug(title)| + 7
    ensures r[..|r| - 7] == FinalSlug(title) && r[|r| - 7] == '~' && r[|r| - 6..] == RandomHex(b0, b1, b2)
  {
    JoinId(FinalSlug(title), RandomHex(b0, b1, b2))
  }

  /** generateFormId over the corrected slug: the slug part never ends in a hyphen. */
  function GenerateFormIdCorrected(title: string, b0: byte, b1: byte, b2: byte): (r: string)
    ensures |r| == |FinalSlugCorrected(title)| + 7
    ensures r[..|r| - 7] == FinalSlugCorrected(title) && r[|r| - 7] == '~' && r[|r| - 6..] == RandomHex(b0, b1, b2)
    ensures r[|r| - 8] != '-'
  {
    var f := FinalSlugCorrected(title);
    var r := JoinId(f, RandomHex(b0, b1, b2));
    assert r[|r| - 8] == f[|f| - 1];
    r
  }

  /** `${slug}~${hex}`. */
  function JoinId(slug: string, hex: string): (r: string)
    ensures |r| == |slug| + 1 + |hex|
    ensures r[..|slug|] == slug && r[|slug|] == '~' && r[|slug| + 1..] == hex
  {
    slug + "~" + hex
  }

  /** With no "~" in either part, the joined id holds exactly one. */
  lemma JoinIdOneTilde(slug: string, hex: string)
    requires Occurrences(slug, '~') == 0 && Occurrences(hex, '~') == 0
    ensures Occurrences(JoinId(slug, hex), '~') == 1
  {
    OccurrencesAppend(slug, "~", '~');
    OccurrencesAppend(slug + "~", hex, '~');
  }

  /** The id holds exactly one "~", so slug and hex can be told apart; the same holds with the corrected slug. */
  lemma FormIdHasOneTilde(title: string, b0: byte, b1: byte, b2: byte)
    ensures Occurrences(GenerateFormId(title, b0, b1, b2), '~') == 1
    ensures Occurrences(GenerateFormIdCorrected(title, b0, b1, b2), '~') == 1
  {
    var h := RandomHex(b0, b1, b2);
    SlugIdOneTilde(FinalSlug(title), h);
    SlugIdOneTilde(FinalSlugCorrected(title), h);
  }

  lemma SlugIdOneTilde(s: string, h: string)
    requires s == "form" || forall i | 0 <= i < |s| :: IsSlugChar(s[i])
    requires forall i | 0 <= i < |h| :: IsHexDigit(h[i])
    ensures Occurrences(JoinId(s, h), '~') == 1
  {
    SlugHasNoTilde(s);
    OccurrencesNone(h, '~');
    JoinIdOneTilde(s, h);
  }

  lemma SlugHasNoTilde(s: string)
    requires s == "form" || forall i | 0 <= i < |s| :: IsSlugChar(s[i])
    ensures Occurrences(s, '~') == 0
  {
    if s == "form" {
      assert Occurrences(s, '~') == 0;
    } else {
      OccurrencesNone(s, '~');
    }
  }

  /** The two ids differ only where the slug as written ends in a hyphen. */
  lemma FormIdCorrectedAgrees(title: string, b0: byte, b1: byte, b2: byte)
    requires Slug(title) == [] || Slug(title)[|Slug(title)| - 1] != '-'
    ensures GenerateFormIdCorrected(title, b0, b1, b2) == GenerateFormId(title, b0, b1, b2)
  {
    SlugCorrectedAgrees(title);
  }

  /**
   * The id as written can read `…-~hex`: a 49-letter word, a separator and a
   * word give the word and a hyphen before the "~", where the corrected id
   * has the word alone.
   */
  lemma FormIdCanHaveHyphenBeforeTilde(a: string, sep: string, b: string, b0: byte, b1: byte, b2: byte)
    requires |a| == MaxSlugLength - 1 && forall i | 0 <= i < |a| :: IsAsciiAlnum(a[i])
    requires sep != [] && forall i | 0 <= i < |sep| :: !IsAsciiAlnum(sep[i])
    requires b != [] && forall i | 0 <= i < |b| :: IsAsciiAlnum(b[i])
    ensures var r := GenerateFormId(a + sep + b, b0, b1, b2); r[|r| - 8] == '-' && r[..|r| - 7] == Lower(a) + "-"
    ensures var c := GenerateFormIdCorrected(a + sep + b, b0, b1, b2); c[..|c| - 7] == Lower(a)
  {
    var t := a + sep + b;
    SlugCanEndWithHyphen(a, sep, b);
    var s := Slug(t);
    assert StripHyphens(s) == Lower(a) by {
      LowerAsciiAlnum(a);
      StripOneTrailingHyphen(Lower(a));
    }
  }

  /** The slug and the hex can be read back from the id, with the slug as written or corrected. */
  lemma FormIdParts(title: string, b0: byte, b1: byte, b2: byte)
    ensures var r := GenerateFormId(title, b0, b1, b2);
            var h := r[|r| - 6..];
            && 16 * HexDigitValue(h[0]) + HexDigitValue(h[1]) == b0
            && 16 * HexDigitValue(h[2]) + HexDigitValue(h[3]) == b1
            && 16 * HexDigitValue(h[4]) + HexDigitValue(h[5]) == b2
    ensures var r := GenerateFormIdCorrected(title, b0, b1, b2);
            r[|r| - 6..] == GenerateFormId(title, b0, b1, b2)[|GenerateFormId(title, b0, b1, b2)| - 6..]
  {
    var r := GenerateFormId(title, b0, b1, b2);
    assert r[|r| - 6..] == RandomHex(b0, b1, b2);
    RandomHexParts(b0, b1, b2);
  }

  lemma RandomHexParts(b0: byte, b1: byte, b2: byte)
    ensures var h := RandomHex(b0, b1, b2);
            && 16 * HexDigitValue(h[0]) + HexDigitValue(h[1]) == b0
            && 16 * HexDigitValue(h[2]) + HexDigitValue(h[3]) == b1
            && 16 * HexDigitValue(h[4]) + HexDigitValue(h[5]) == b2
  {
    HexByteRoundTrip(b0);
    HexByteRoundTrip(b1);
    HexByteRoundTrip(b2);
  }

  /** Lowercase alphanumerics pass through the hyphenation unchanged. */
  lemma {:induction false} HyphenateAlnumPrefix(p: string, s: string)
    requires forall i | 0 <= i < |p| :: IsAlnum(p[i])
    ensures Hyphenate(p + s) == p + Hyphenate(s)
  {
    if p != [] {
      var t := p + s;
      assert t[0] == p[0] && t[1..] == p[1..] + s;
      HyphenateAlnumHead(t);
      HyphenateAlnumPrefix(p[1..], s);
      assert [p[0]] + (p[1..] + Hyphenate(s)) == p + Hyphenate(s) by {
        assert [p[0]] + p[1..] == p;
      }
    } else {
      assert p + s == s;
    }
  }

  lemma HyphenateAlnumHead(t: string)
    requires t != [] && IsAlnum(t[0])
    ensures Hyphenate(t) == [t[0]] + Hyphenate(t[1..])
  {
  }

  lemma HyphenateSeparatorHead(t: string)
    requires t != [] && !IsAlnum(t[0])
    ensures Hyphenate(t) == "-" + Hyphenate(SkipNonAlnum(t[1..]))
  {
  }

  /** A title that already is a clean slug is left as it is by the hyphenation. */
  lemma {:induction false} HyphenateClean(s: string)
    requires forall i | 0 <= i < |s| :: IsSlugChar(s[i])
    requires NoDoubleHyphen(s)
    ensures Hyphenate(s) == s
  {
    if s != [] {
      var t := s[1..];
      assert NoDoubleHyphen(t) by {
        forall i | 0 <= i < |t| - 1 ensures !(t[i] == '-' && t[i + 1] == '-') {
          assert t[i] == s[i + 1] && t[i + 1] == s[i + 2];
        }
      }
      HyphenateClean(t);
      if !IsAlnum(s[0]) && t != [] {
        assert t[0] == s[1];
      }
    }
  }

  lemma LowerClean(s: string)
    requires forall i | 0 <= i < |s| :: IsSlugChar(s[i])
    ensures Lower(s) == s
  {
  }

  lemma TrimClean(s: string)
    requires s != [] ==> !Strings.IsSpace(s[0]) && !Strings.IsSpace(s[|s| - 1])
    ensures Strings.Trim(s) == s
  {
    var k := Strings.LeadingSpaces(s);
    var r := Strings.Trim(s);
    if s != [] {
      assert k == 0;
      assert |r| == |s|;
    }
  }

  /** A run of characters outside [a-z0-9] is skipped up to the next alphanumeric. */
  lemma {:induction false} SkipRun(sep: string, b: string)
    requires forall i | 0 <= i < |sep| :: !IsAlnum(sep[i])
    requires b != [] && IsAlnum(b[0])
    ensures SkipNonAlnum(sep + b) == b
  {
    if sep != [] {
      assert (sep + b)[0] == sep[0] && (sep + b)[1..] == sep[1..] + b;
      SkipRun(sep[1..], b);
    } else {
      assert sep + b == b;
    }
  }

  /** Two words joined by a run of other characters are joined by one hyphen. */
  lemma HyphenateTwoWords(a: string, sep: string, b: string)
    requires forall i | 0 <= i < |a| :: IsAlnum(a[i])
    requires sep != [] && forall i | 0 <= i < |sep| :: !IsAlnum(sep[i])
    requires b != [] && forall i | 0 <= i < |b| :: IsAlnum(b[i])
    ensures Hyphenate(a + sep + b) == a + "-" + b
  {
    var t := sep + b;
    assert a + sep + b == a + t;
    HyphenateAlnumPrefix(a, t);
    HyphenateSeparatedWord(sep, b);
    assert a + ("-" + b) == a + "-" + b;
  }

  /** A run of other characters followed by a word becomes a hyphen and the word. */
  lemma HyphenateSeparatedWord(sep: string, b: string)
    requires sep != [] && forall i | 0 <= i < |sep| :: !IsAlnum(sep[i])
    requires b != [] && forall i | 0 <= i < |b| :: IsAlnum(b[i])
    ensures Hyphenate(sep + b) == "-" + b
  {
    var t := sep + b;
    assert t[0] == sep[0] && t[1..] == sep[1..] + b;
    HyphenateSeparatorHead(t);
    SkipRun(sep[1..], b);
    HyphenateWord(b);
  }

  /** A word of [a-z0-9] is its own hyphenation. */
  lemma HyphenateWord(w: string)
    requires forall i | 0 <= i < |w| :: IsAlnum(w[i])
    ensures Hyphenate(w) == w
  {
    HyphenateAlnumPrefix(w, []);
    assert w + [] == w;
  }

  lemma LowerExample()
    ensures Lower("Hello") + "-" + Lower("World") == "hello-world"
  {
    assert Lower("Hello") == "hello" && Lower("World") == "world";
  }

  predicate IsAsciiAlnum(c: char) {
    'a' <= c <= 'z' || 'A' <= c <= 'Z' || '0' <= c <= '9'
  }

  /** The lowercase of an ASCII alphanumeric is in [a-z0-9]. */
  lemma LowerAsciiAlnum(a: string)
    requires forall i | 0 <= i < |a| :: IsAsciiAlnum(a[i])
    ensures forall i | 0 <= i < |a| :: IsAlnum(Lower(a)[i])
  {
  }

  /**
   * Two ASCII words joined by a run of other characters, with no blank at
   * either end, give the lowercased words joined by one hyphen.
   */
  lemma UncutTwoWords(a: string, sep: string, b: string)
    requires a != [] && forall i | 0 <= i < |a| :: IsAsciiAlnum(a[i])
    requires sep != [] && forall i | 0 <= i < |sep| :: !IsAsciiAlnum(sep[i])
    requires b != [] && forall i | 0 <= i < |b| :: IsAsciiAlnum(b[i])
    ensures Uncut(a + sep + b) == Lower(a) + "-" + Lower(b)
  {
    var la, ls, lb := Lower(a), Lower(sep), Lower(b);
    UncutSteps(a + sep + b);
    TrimTwoWords(a, sep, b);
    HyphenateTwoWords(la, ls, lb);
    JoinedWordsClean(la, lb);
  }

  /** Two words joined by one hyphen are left alone by the strip and the collapse. */
  lemma JoinedWordsClean(x: string, y: string)
    requires x != [] && forall i | 0 <= i < |x| :: IsAlnum(x[i])
    requires y != [] && forall i | 0 <= i < |y| :: IsAlnum(y[i])
    ensures CollapseHyphens(StripHyphens(x + "-" + y)) == x + "-" + y
  {
    var h := x + "-" + y;
    assert h[0] == x[0] && h[|h| - 1] == y[|y| - 1];
    assert StripHyphens(h) == h;
    JoinedWordsNoDoubleHyphen(x, y);
  }

  lemma JoinedWordsNoDoubleHyphen(x: string, y: string)
    requires forall i | 0 <= i < |x| :: IsAlnum(x[i])
    requires forall i | 0 <= i < |y| :: IsAlnum(y[i])
    ensures NoDoubleHyphen(x + "-" + y)
  {
    var h := x + "-" + y;
    forall i | 0 <= i < |h| - 1 ensures !(h[i] == '-' && h[i + 1] == '-') {
      if i < |x| {
        assert h[i] == x[i];
      } else {
        assert h[i + 1] == y[i - |x|];
      }
    }
  }

  /** Lowercasing and trimming two words and a separator leaves the lowered pieces in place. */
  lemma TrimTwoWords(a: string, sep: string, b: string)
    requires a != [] && forall i | 0 <= i < |a| :: IsAsciiAlnum(a[i])
    requires sep != [] && forall i | 0 <= i < |sep| :: !IsAsciiAlnum(sep[i])
    requires b != [] && forall i | 0 <= i < |b| :: IsAsciiAlnum(b[i])
    ensures Strings.Trim(Lower(a + sep + b)) == Lower(a) + Lower(sep) + Lower(b)
    ensures forall i | 0 <= i < |a| :: IsAlnum(Lower(a)[i])
    ensures forall i | 0 <= i < |sep| :: !IsAlnum(Lower(sep)[i])
    ensures forall i | 0 <= i < |b| :: IsAlnum(Lower(b)[i])
  {
    var la, ls, lb := Lower(a), Lower(sep), Lower(b);
    LowerAsciiAlnum(a);
    LowerAsciiAlnum(b);
    LowerNonAlnum(sep);
    assert Lower(a + sep + b) == la + ls + lb by {
      LowerAppend(a, sep);
      LowerAppend(a + sep, b);
    }
    WordEndsTrimClean(la, ls, lb);
  }

  lemma LowerNonAlnum(s: string)
    requires forall i | 0 <= i < |s| :: !IsAsciiAlnum(s[i])
    ensures forall i | 0 <= i < |s| :: !IsAlnum(Lower(s)[i])
  {
  }

  /** A string that starts and ends with an alphanumeric trims to itself. */
  lemma WordEndsTrimClean(x: string, y: string, z: string)
    requires x != [] && IsAlnum(x[0]) && z != [] && IsAlnum(z[|z| - 1])
    ensures Strings.Trim(x + y + z) == x + y + z
  {
    var t := x + y + z;
    assert t[0] == x[0] && t[|t| - 1] == z[|z| - 1];
    TrimClean(t);
  }

  /** Short enough, the slug of two words is the lowercased words joined by one hyphen. */
  lemma SlugOfTwoWords(a: string, sep: string, b: string)
    requires a != [] && forall i | 0 <= i < |a| :: IsAsciiAlnum(a[i])
    requires sep != [] && forall i | 0 <= i < |sep| :: !IsAsciiAlnum(sep[i])
    requires b != [] && forall i | 0 <= i < |b| :: IsAsciiAlnum(b[i])
    requires |a| + |b| < MaxSlugLength
    ensures Slug(a + sep + b) == Lower(a) + "-" + Lower(b)
  {
    UncutTwoWords(a, sep, b);
  }

  lemma {:induction false} LowerAppend(x: string, y: string)
    ensures Lower(x + y) == Lower(x) + Lower(y)
  {
    var l := Lower(x + y);
    assert |l| == |Lower(x) + Lower(y)|;
    forall i | 0 <= i < |l| ensures l[i] == (Lower(x) + Lower(y))[i] {
      if i < |x| { assert (x + y)[i] == x[i]; } else { assert (x + y)[i] == y[i - |x|]; }
    }
  }

  /** "Hello,  World" becomes "hello-world". */
  lemma SlugExample(first: string, sep: string, second: string)
    requires first == "Hello" && sep == ",  " && second == "World"
    ensures Slug(first + sep + second) == "hello-world"
  {
    SlugOfTwoWords(first, sep, second);
    LowerExample();
  }

  /**
   * As written, the 50-character cut can leave a trailing hyphen: a 49-character
   * word, a separator and another word give the word and a hyphen. That slug is
   * then no fixed point: slugging it again drops the hyphen.
   */
  lemma SlugCanEndWithHyphen(a: string, sep: string, b: string)
    requires |a| == MaxSlugLength - 1 && forall i | 0 <= i < |a| :: IsAsciiAlnum(a[i])
    requires sep != [] && forall i | 0 <= i < |sep| :: !IsAsciiAlnum(sep[i])
    requires b != [] && forall i | 0 <= i < |b| :: IsAsciiAlnum(b[i])
    ensures var s := Slug(a + sep + b); s == Lower(a) + "-" && s[|s| - 1] == '-'
    ensures Slug(Slug(a + sep + b)) == Lower(a) != Slug(a + sep + b)
  {
    var la := Lower(a);
    var s := Slug(a + sep + b);
    SlugCutAfterFirstWord(a, sep, b);
    assert |s| == |la| + 1 && s[|s| - 1] == '-';
    LowerAsciiAlnum(a);
    SlugDropsTrailingHyphen(la);
  }

  /** The cut of the two-word slug falls just after the hyphen. */
  lemma SlugCutAfterFirstWord(a: string, sep: string, b: string)
    requires |a| == MaxSlugLength - 1 && forall i | 0 <= i < |a| :: IsAsciiAlnum(a[i])
    requires sep != [] && forall i | 0 <= i < |sep| :: !IsAsciiAlnum(sep[i])
    requires b != [] && forall i | 0 <= i < |b| :: IsAsciiAlnum(b[i])
    ensures Slug(a + sep + b) == Lower(a) + "-"
  {
    UncutTwoWords(a, sep, b);
    var la := Lower(a);
    assert (la + "-" + Lower(b))[..MaxSlugLength] == la + "-";
  }

  /** A short word and a hyphen slug to the word. */
  lemma SlugDropsTrailingHyphen(w: string)
    requires w != [] && |w| < MaxSlugLength && forall i | 0 <= i < |w| :: IsAlnum(w[i])
    ensures Slug(w + "-") == w
  {
    UncutTrailingHyphen(w);
  }

  /** A word and a hyphen lose the hyphen. */
  lemma UncutTrailingHyphen(w: string)
    requires w != [] && forall i | 0 <= i < |w| :: IsAlnum(w[i])
    ensures Uncut(w + "-") == w
  {
    var s := w + "-";
    UncutSteps(s);
    WordHyphenUntouched(w);
    WordHyphenKept(w);
    StripOneTrailingHyphen(w);
    WordCollapseUntouched(w);
  }

  /** Lower-casing and trimming leave a word and a hyphen alone. */
  lemma WordHyphenUntouched(w: string)
    requires w != [] && forall i | 0 <= i < |w| :: IsAlnum(w[i])
    ensures Strings.Trim(Lower(w + "-")) == w + "-"
  {
    var s := w + "-";
    WordHyphenChars(w);
    TrimClean(s);
    LowerClean(s);
  }

  /** A word and a hyphen hold slug characters only, with no space at either end. */
  lemma WordHyphenChars(w: string)
    requires w != [] && forall i | 0 <= i < |w| :: IsAlnum(w[i])
    ensures var s := w + "-";
            && (forall i | 0 <= i < |s| :: IsSlugChar(s[i]))
            && !Strings.IsSpace(s[0]) && !Strings.IsSpace(s[|s| - 1])
  {
    var s := w + "-";
    forall i | 0 <= i < |s| ensures IsSlugChar(s[i]) {
      if i < |w| {
        assert s[i] == w[i];
      }
    }
    assert s[0] == w[0];
  }

  /** Hyphenating leaves a word and a hyphen alone. */
  lemma WordHyphenKept(w: string)
    requires forall i | 0 <= i < |w| :: IsAlnum(w[i])
    ensures Hyphenate(w + "-") == w + "-"
  {
    HyphenateAlnumPrefix(w, "-");
    assert Hyphenate("-") == "-";
  }

  /** Collapsing leaves a word alone. */
  lemma WordCollapseUntouched(w: string)
    requires forall i | 0 <= i < |w| :: IsAlnum(w[i])
    ensures CollapseHyphens(w) == w
  {
    assert NoDoubleHyphen(w);
  }

  lemma StripOneTrailingHyphen(w: string)
    requires w != [] && w[0] != '-' && w[|w| - 1] != '-'
    ensures StripHyphens(w + "-") == w
  {
    var s := w + "-";
    assert s[0] == w[0] && s[|s| - 1] == '-';
    var t := DropLeadingHyphens(s);
    assert t == s;
    assert s[..|s| - 1] == w;
    assert DropTrailingHyphens(s) == DropTrailingHyphens(w);
    assert DropTrailingHyphens(w) == w;
  }

  /** The corrected slug: end hyphens are stripped after the 50-character cut as well. */
  function SlugCorrected(title: string): (r: string)
    ensures IsCleanSlug(r)
    ensures |r| <= MaxSlugLength
  {
    var s := Slug(title);
    StripKeepsShape(s);
    StripHyphens(s)
  }

  /** Stripping the end hyphens of a string of slug characters without "--" leaves a clean slug, no longer. */
  lemma StripKeepsShape(s: string)
    requires forall i | 0 <= i < |s| :: IsSlugChar(s[i])
    requires NoDoubleHyphen(s)
    ensures IsCleanSlug(StripHyphens(s)) && |StripHyphens(s)| <= |s|
  {
    var r := StripHyphens(s);
    var k := LeadingHyphens(s);
    SliceKeepsShape(s, k, k + |r|);
  }

  /** Where the cut leaves no trailing hyphen, the corrected slug is the slug as written. */
  lemma SlugCorrectedAgrees(title: string)
    requires Slug(title) == [] || Slug(title)[|Slug(title)| - 1] != '-'
    ensures SlugCorrected(title) == Slug(title)
  {
  }

  /** A clean slug of at most 50 characters is its own corrected slug. */
  lemma CleanSlugIsFixed(s: string)
    requires IsCleanSlug(s) && |s| <= MaxSlugLength
    ensures SlugCorrected(s) == s
  {
    LowerClean(s);
    TrimClean(s);
    HyphenateClean(s);
  }

  /** The corrected slug is idempotent: slugging a slug changes nothing. */
  lemma SlugCorrectedIdempotent(title: string)
    ensures SlugCorrected(SlugCorrected(title)) == SlugCorrected(title)
  {
    CleanSlugIsFixed(SlugCorrected(title));
  }
}
