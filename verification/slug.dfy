/** Slug derivation of `POST` in `src/app/api/wishes/route.ts`: the desired
    slug, the slug derived from the name, the fallback chain ending in
    `"wish"`, and the numbered candidates `base-1`, `base-2`, … that the
    probe tries. */
module Slug {
  import opened Wrappers
  import opened JsString

  predicate IsAlnum(c: char) {
    'a' <= c <= 'z' || '0' <= c <= '9'
  }

  /** `[a-z0-9-]`. */
  predicate IsSlugChar(c: char) {
    IsAlnum(c) || c == '-'
  }

  predicate AllSlugChars(s: string) {
    forall i :: 0 <= i < |s| ==> IsSlugChar(s[i])
  }

  predicate NoDoubleHyphen(s: string) {
    forall i :: 0 < i < |s| ==> s[i - 1] != '-' || s[i] != '-'
  }

  /** The characters the replacement keeps: `[a-z0-9-]` for the desired slug,
      `[a-z0-9]` for the name. */
  predicate Kept(c: char, keepHyphen: bool) {
    IsAlnum(c) || (keepHyphen && c == '-')
  }

  /** No character of `s` is kept by the replacement. */
  predicate NoneKept(s: string, keepHyphen: bool) {
    forall i :: 0 <= i < |s| ==> !Kept(s[i], keepHyphen)
  }

  /** The index just past the run of characters the replacement drops that
      starts at `lo`. */
  function RunEnd(s: string, lo: nat, keepHyphen: bool): (j: nat)
    requires lo <= |s|
    ensures lo <= j <= |s|
    ensures forall k :: lo <= k < j ==> !Kept(s[k], keepHyphen)
    ensures j < |s| ==> Kept(s[j], keepHyphen)
    decreases |s| - lo
  {
    if lo < |s| && !Kept(s[lo], keepHyphen) then RunEnd(s, lo + 1, keepHyphen) else lo
  }

  /** `s.replace(/[^a-z0-9-]+/g, '-')` when `keepHyphen`, else
      `s.replace(/[^a-z0-9]+/g, '-')`: each maximal run of other characters
      becomes one hyphen. */
  function CollapseRuns(s: string, keepHyphen: bool): string
    decreases |s|
  {
    if s == [] then []
    else if Kept(s[0], keepHyphen) then [s[0]] + CollapseRuns(s[1..], keepHyphen)
    else "-" + CollapseRuns(s[RunEnd(s, 1, keepHyphen)..], keepHyphen)
  }

  /** The collapsed text uses only slug characters, starts like the input,
      and, when hyphens are separators too, never has two hyphens in a row. */
  lemma {:induction false} CollapseRunsShape(s: string, keepHyphen: bool)
    ensures var r := CollapseRuns(s, keepHyphen);
      && AllSlugChars(r)
      && (r == [] <==> s == [])
      && (s != [] && Kept(s[0], keepHyphen) ==> r[0] == s[0])
      && (s != [] && !Kept(s[0], keepHyphen) ==> r[0] == '-')
      && (!keepHyphen ==> NoDoubleHyphen(r))
    decreases |s|
  {
    if s != [] {
      var rest := if Kept(s[0], keepHyphen) then s[1..] else s[RunEnd(s, 1, keepHyphen)..];
      CollapseRunsShape(rest, keepHyphen);
      var h := if Kept(s[0], keepHyphen) then [s[0]] else "-";
      var t := CollapseRuns(rest, keepHyphen);
      assert CollapseRuns(s, keepHyphen) == h + t;
      if !keepHyphen && t != [] {
        if !Kept(s[0], false) {
          assert t[0] == rest[0];
        }
        var r := h + t;
        forall i | 0 < i < |r| ensures r[i - 1] != '-' || r[i] != '-' {
          if i > 1 {
            assert r[i - 1] == t[i - 2] && r[i] == t[i - 1];
          }
        }
      }
    }
  }

  lemma NoDoubleHyphenSlice(s: string, i: nat, j: nat)
    requires i <= j <= |s|
    ensures NoDoubleHyphen(s) ==> NoDoubleHyphen(s[i..j])
  {
    var r := s[i..j];
    if NoDoubleHyphen(s) {
      forall k | 0 < k < |r| ensures r[k - 1] != '-' || r[k] != '-' {
        assert r[k - 1] == s[i + k - 1] && r[k] == s[i + k];
      }
    }
  }

  /** The `^-` alternative: a leading hyphen goes. */
  function DropLeadingHyphen(s: string): (r: string)
    ensures AllSlugChars(s) ==> AllSlugChars(r)
    ensures NoDoubleHyphen(s) ==> NoDoubleHyphen(r) && (r != [] ==> r[0] != '-')
    ensures forall c :: c in s && c != '-' ==> c in r
  {
    if s != [] && s[0] == '-' then
      NoDoubleHyphenSlice(s, 1, |s|);
      assert forall c :: c in s && c != '-' ==> c in s[1..];
      s[1..]
    else
      s
  }

  /** The `-$` alternative: a trailing hyphen goes. */
  function DropTrailingHyphen(t: string): (r: string)
    ensures AllSlugChars(t) ==> AllSlugChars(r)
    ensures NoDoubleHyphen(t) ==> NoDoubleHyphen(r) && (r != [] ==> r[|r| - 1] != '-')
    ensures forall c :: c in t && c != '-' ==> c in r
  {
    if t != [] && t[|t| - 1] == '-' then
      NoDoubleHyphenSlice(t, 0, |t| - 1);
      assert forall c :: c in t && c != '-' ==> c in t[..|t| - 1];
      t[..|t| - 1]
    else
      t
  }

  /** `s.replace(/(^-|-$)/g, '')`: at most one leading and then at most one
      trailing hyphen go (a lone `-` is consumed by the first alternative). */
  function StripEdgeHyphens(s: string): (r: string)
    ensures |r| <= |s|
    ensures AllSlugChars(s) ==> AllSlugChars(r)
    ensures NoDoubleHyphen(s) ==> NoDoubleHyphen(r) && (r != [] ==> r[0] != '-' && r[|r| - 1] != '-')
    ensures forall c :: c in s && c != '-' ==> c in r
  {
    var t := DropLeadingHyphen(s);
    assert |DropTrailingHyphen(t)| <= |t|;
    assert DropTrailingHyphen(t) != [] ==> DropTrailingHyphen(t)[0] == t[0];
    DropTrailingHyphen(t)
  }

  /** What the stripping removes: the text is the hyphen stripped from its
      start (if it starts with one), what is kept, and the hyphen stripped
      from the end of what remains (if that ends with one), in that order. */
  lemma StripDecomposes(s: string)
    ensures var a := if s != [] && s[0] == '-' then "-" else "";
      var b := if |s| > |a| && s[|s| - 1] == '-' then "-" else "";
      s == a + StripEdgeHyphens(s) + b
  {
    var t := DropLeadingHyphen(s);
    var r := DropTrailingHyphen(t);
    var a := if s != [] && s[0] == '-' then "-" else "";
    var b := if t != [] && t[|t| - 1] == '-' then "-" else "";
    LeadingSplit(s);
    TrailingSplit(t);
    assert StripEdgeHyphens(s) == r;
    assert |t| == |s| - |a| && (t != [] ==> t[|t| - 1] == s[|s| - 1]);
    assert a + r + b == a + (r + b);
  }

  lemma LeadingSplit(s: string)
    ensures s == (if s != [] && s[0] == '-' then "-" else "") + DropLeadingHyphen(s)
  {
    if s != [] && s[0] == '-' {
      assert s == [s[0]] + s[1..];
    }
  }

  lemma TrailingSplit(t: string)
    ensures t == DropTrailingHyphen(t) + (if t != [] && t[|t| - 1] == '-' then "-" else "")
  {
    if t != [] && t[|t| - 1] == '-' {
      assert t == t[..|t| - 1] + [t[|t| - 1]];
    }
  }

  /** A cut keeps the slug characters, the absence of `--` and the first
      character. */
  lemma TakeKeepsSlugShape(s: string, n: nat)
    ensures AllSlugChars(s) ==> AllSlugChars(Take(s, n))
    ensures NoDoubleHyphen(s) ==> NoDoubleHyphen(Take(s, n))
    ensures Take(s, n) != [] ==> Take(s, n)[0] == s[0]
  {
    if |s| > n {
      NoDoubleHyphenSlice(s, 0, n);
      assert Take(s, n) == s[0..n];
    }
  }

  /** The desired slug: lower-cased, runs outside `[a-z0-9-]` collapsed to a
      hyphen, one edge hyphen stripped on each side, cut to 48 characters. */
  function DesiredSlug(slug: Option<string>): (r: string)
    ensures AllSlugChars(r) && |r| <= 48
  {
    CollapseRunsShape(AsciiLower(Or(slug, "")), true);
    TakeKeepsSlugShape(StripEdgeHyphens(CollapseRuns(AsciiLower(Or(slug, "")), true)), 48);
    Take(StripEdgeHyphens(CollapseRuns(AsciiLower(Or(slug, "")), true)), 48)
  }

  /** The slug derived from the (trimmed) name: like the desired slug but
      hyphens count as separators too, and cut to 40 characters. */
  function NameSlug(name: string): (r: string)
    ensures AllSlugChars(r) && NoDoubleHyphen(r) && |r| <= 40
    ensures r != [] ==> r[0] != '-'
  {
    CollapseRunsShape(AsciiLower(name), false);
    TakeKeepsSlugShape(StripEdgeHyphens(CollapseRuns(AsciiLower(name), false)), 40);
    Take(StripEdgeHyphens(CollapseRuns(AsciiLower(name), false)), 40)
  }

  /** `desired || nameSlug || 'wish'`: never empty, always a valid slug. */
  function BaseSlug(slug: Option<string>, name: string): (r: string)
    ensures r != "" && AllSlugChars(r) && |r| <= 48
    ensures DesiredSlug(slug) != "" ==> r == DesiredSlug(slug)
    ensures DesiredSlug(slug) == "" && NameSlug(name) != "" ==> r == NameSlug(name)
    ensures DesiredSlug(slug) == "" && NameSlug(name) == "" ==> r == "wish"
  {
    var desired := DesiredSlug(slug);
    if desired != "" then desired
    else
      var fallback := NameSlug(name);
      if fallback != "" then fallback else "wish"
  }

  function DigitChar(d: nat): (c: char)
    requires d < 10
    ensures '0' <= c <= '9'
  {
    ('0' as int + d) as char
  }

  /** The decimal numeral of `n`, as `${n}` writes it. */
  function Decimal(n: nat): (r: string)
    ensures r != [] && forall i :: 0 <= i < |r| ==> '0' <= r[i] <= '9'
    ensures n >= 10 ==> |r| >= 2
    decreases n
  {
    if n < 10 then [DigitChar(n)] else Decimal(n / 10) + [DigitChar(n % 10)]
  }

  /** The value of a decimal digit (0 for any other character). */
  function DigitValue(c: char): (v: nat)
    ensures v < 10
  {
    if '0' <= c <= '9' then c as int - '0' as int else 0
  }

  /** Reads a decimal numeral, most significant digit first. */
  function NumeralValue(s: string): nat
    decreases |s|
  {
    if s == [] then 0 else 10 * NumeralValue(s[..|s| - 1]) + DigitValue(s[|s| - 1])
  }

  /** `Decimal` writes `n`: reading its numeral back gives `n`. */
  lemma {:induction false} DecimalValue(n: nat)
    ensures NumeralValue(Decimal(n)) == n
    decreases n
  {
    var r := Decimal(n);
    if n < 10 {
      assert r[..|r| - 1] == [];
    } else {
      DecimalValue(n / 10);
      assert r[..|r| - 1] == Decimal(n / 10);
      assert DigitValue(r[|r| - 1]) == n % 10;
    }
  }

  /** Different numbers have different numerals. */
  lemma DecimalInjective(a: nat, b: nat)
    requires Decimal(a) == Decimal(b)
    ensures a == b
  {
    DecimalValue(a);
    DecimalValue(b);
  }

  function Pow10(d: nat): (p: nat)
    ensures p >= 1
  {
    if d == 0 then 1 else 10 * Pow10(d - 1)
  }

  /** A number below `10^d` has at most `d` digits. */
  lemma {:induction false} DecimalFits(n: nat, d: nat)
    requires d >= 1 && n < Pow10(d)
    ensures |Decimal(n)| <= d
    decreases d
  {
    if n >= 10 {
      assert Pow10(1) == 10;
      assert n / 10 < Pow10(d - 1);
      DecimalFits(n / 10, d - 1);
    }
  }

  /** The `k`-th candidate for `base`: `base` itself, then `base-1`, `base-2`, … */
  function Candidate(base: string, k: nat): string {
    if k == 0 then base else base + "-" + Decimal(k)
  }

  /** The candidates for one base are pairwise different, so the probe never
      looks the same slug up twice. */
  lemma CandidateInjective(base: string, j: nat, k: nat)
    requires Candidate(base, j) == Candidate(base, k)
    ensures j == k
  {
    if j > 0 && k > 0 {
      var n := |base| + 1;
      assert Candidate(base, j)[n..] == Decimal(j);
      assert Candidate(base, k)[n..] == Decimal(k);
      DecimalInjective(j, k);
    }
  }

  /** Every candidate the probe can produce from a base slug is itself a
      slug of at most 53 characters: the base, a hyphen and up to four
      digits. */
  lemma CandidateIsSlug(base: string, k: nat)
    requires base != "" && AllSlugChars(base) && |base| <= 48
    requires k <= 1001
    ensures var c := Candidate(base, k);
      c != "" && AllSlugChars(c) && |c| <= 53 && StartsWith(c, base)
  {
    if k > 0 {
      assert Pow10(4) == 10000;
      DecimalFits(k, 4);
      var c := Candidate(base, k);
      assert forall i :: |base| < i < |c| ==> c[i] == Decimal(k)[i - |base| - 1];
    }
  }

  /** The letters and digits of `s`, in order. */
  function Alnums(s: string): string
    decreases |s|
  {
    if s == [] then [] else (if IsAlnum(s[0]) then [s[0]] else []) + Alnums(s[1..])
  }

  lemma {:induction false} AlnumsAppend(a: string, b: string)
    ensures Alnums(a + b) == Alnums(a) + Alnums(b)
    decreases |a|
  {
    if a == [] {
      assert a + b == b;
    } else {
      var h := if IsAlnum(a[0]) then [a[0]] else [];
      assert (a + b)[0] == a[0] && (a + b)[1..] == a[1..] + b;
      assert Alnums(a + b) == h + Alnums(a[1..] + b);
      AlnumsAppend(a[1..], b);
      assert Alnums(a) == h + Alnums(a[1..]);
    }
  }

  /** The letters and digits of a single character. */
  lemma AlnumsOfChar(c: char)
    ensures Alnums([c]) == if IsAlnum(c) then [c] else []
  {
    assert [c][1..] == [];
  }

  /** A run of characters the replacement drops holds no letter or digit. */
  lemma {:induction false} AlnumsSkip(s: string, lo: nat, j: nat, keepHyphen: bool)
    requires lo <= j <= |s|
    requires forall k :: lo <= k < j ==> !Kept(s[k], keepHyphen)
    ensures Alnums(s[lo..]) == Alnums(s[j..])
    decreases j - lo
  {
    if lo < j {
      assert s[lo..][0] == s[lo] && s[lo..][1..] == s[lo + 1..];
      AlnumsSkip(s, lo + 1, j, keepHyphen);
    }
  }

  /** Collapsing runs keeps every letter and digit, in order. */
  lemma {:induction false} CollapseRunsKeepsAlnums(s: string, keepHyphen: bool)
    ensures Alnums(CollapseRuns(s, keepHyphen)) == Alnums(s)
    decreases |s|
  {
    if s != [] {
      if Kept(s[0], keepHyphen) {
        var t := CollapseRuns(s[1..], keepHyphen);
        CollapseRunsKeepsAlnums(s[1..], keepHyphen);
        calc {
          Alnums(CollapseRuns(s, keepHyphen));
          Alnums([s[0]] + t);
          { AlnumsAppend([s[0]], t); }
          Alnums([s[0]]) + Alnums(t);
          { AlnumsOfChar(s[0]); }
          (if IsAlnum(s[0]) then [s[0]] else []) + Alnums(s[1..]);
          Alnums(s);
        }
      } else {
        var j := RunEnd(s, 1, keepHyphen);
        var rest := s[j..];
        var t := CollapseRuns(rest, keepHyphen);
        CollapseRunsKeepsAlnums(rest, keepHyphen);
        calc {
          Alnums(CollapseRuns(s, keepHyphen));
          Alnums("-" + t);
          { AlnumsAppend("-", t); AlnumsOfChar('-'); }
          Alnums(rest);
          { AlnumsSkip(s, 1, j, keepHyphen); }
          Alnums(s[1..]);
          Alnums(s);
        }
      }
    }
  }

  lemma {:induction false} AlnumsWitness(s: string)
    requires Alnums(s) != []
    ensures Alnums(s)[0] in s && Alnums(s)[0] != '-'
    decreases |s|
  {
    if !IsAlnum(s[0]) {
      AlnumsWitness(s[1..]);
    }
  }

  lemma {:induction false} NoAlnumsMeansHyphens(s: string)
    requires AllSlugChars(s) && Alnums(s) == []
    ensures forall i :: 0 <= i < |s| ==> s[i] == '-'
    decreases |s|
  {
    if s != [] {
      NoAlnumsMeansHyphens(s[1..]);
      assert forall i :: 1 <= i < |s| ==> s[i] == s[1..][i - 1];
    }
  }

  /** Stripping edge hyphens drops no letter or digit. */
  lemma StripKeepsAlnums(s: string)
    ensures Alnums(StripEdgeHyphens(s)) == Alnums(s)
  {
    var r := StripEdgeHyphens(s);
    var a := if s != [] && s[0] == '-' then "-" else "";
    var b := if |s| > |a| && s[|s| - 1] == '-' then "-" else "";
    StripDecomposes(s);
    AlnumsOfChar('-');
    AlnumsAppend(a, r);
    AlnumsAppend(a + r, b);
  }

  /** Cutting keeps a prefix of the letters and digits, all of them when
      nothing is cut. */
  lemma TakeKeepsAlnums(s: string, n: nat)
    ensures StartsWith(Alnums(s), Alnums(Take(s, n)))
    ensures |s| <= n ==> Alnums(Take(s, n)) == Alnums(s)
  {
    if |s| > n {
      AlnumsPrefix(s, n);
    } else {
      assert Take(s, n) == s;
    }
  }

  /** The letters and digits of a text begin with those of its first `n`
      characters. */
  lemma AlnumsPrefix(s: string, n: nat)
    requires n <= |s|
    ensures StartsWith(Alnums(s), Alnums(s[..n]))
  {
    assert s == s[..n] + s[n..];
    AlnumsAppend(s[..n], s[n..]);
    assert (Alnums(s[..n]) + Alnums(s[n..]))[..|Alnums(s[..n])|] == Alnums(s[..n]);
  }

  /** The slug rules keep the letters and digits of the lower-cased text in
      order, losing only those past the cut. */
  lemma {:induction false} CleanKeepsAlnums(s: string, keepHyphen: bool, n: nat)
    ensures var stripped := StripEdgeHyphens(CollapseRuns(s, keepHyphen));
      && StartsWith(Alnums(s), Alnums(Take(stripped, n)))
      && (|stripped| <= n ==> Alnums(Take(stripped, n)) == Alnums(s))
  {
    var c := CollapseRuns(s, keepHyphen);
    CollapseRunsKeepsAlnums(s, keepHyphen);
    StripKeepsAlnums(c);
    TakeKeepsAlnums(StripEdgeHyphens(c), n);
  }

  /** The desired slug holds the letters and digits of the lower-cased
      request text in order: a prefix of them, all of them when the stripped
      text fits in 48 characters. */
  lemma DesiredSlugKeepsAlnums(slug: Option<string>)
    ensures var lower := AsciiLower(Or(slug, ""));
      && StartsWith(Alnums(lower), Alnums(DesiredSlug(slug)))
      && (|StripEdgeHyphens(CollapseRuns(lower, true))| <= 48 ==> Alnums(DesiredSlug(slug)) == Alnums(lower))
  {
    CleanKeepsAlnums(AsciiLower(Or(slug, "")), true, 48);
  }

  /** The same for the slug derived from the name, cut at 40. */
  lemma NameSlugKeepsAlnums(name: string)
    ensures var lower := AsciiLower(name);
      && StartsWith(Alnums(lower), Alnums(NameSlug(name)))
      && (|StripEdgeHyphens(CollapseRuns(lower, false))| <= 40 ==> Alnums(NameSlug(name)) == Alnums(lower))
  {
    CleanKeepsAlnums(AsciiLower(name), false, 40);
  }

  /** Stripping edge hyphens keeps text that has a letter or digit. */
  lemma StripKeepsAlnum(c: string)
    requires Alnums(c) != []
    ensures StripEdgeHyphens(c) != []
  {
    AlnumsWitness(c);
    assert Alnums(c)[0] in StripEdgeHyphens(c);
  }

  /** Text of lone hyphens is stripped to nothing. */
  lemma StripLoneHyphen(c: string)
    requires AllSlugChars(c) && NoDoubleHyphen(c) && Alnums(c) == []
    ensures StripEdgeHyphens(c) == []
  {
    NoAlnumsMeansHyphens(c);
    assert |c| <= 1;
    assert c == [] || c == "-";
  }

  /** The name yields no slug exactly when its lower-cased form has no ASCII
      letter or digit; only then does the base fall back to `"wish"`. */
  lemma NameSlugEmptyIff(name: string)
    ensures NameSlug(name) == "" <==> Alnums(AsciiLower(name)) == []
  {
    var l := AsciiLower(name);
    var c := CollapseRuns(l, false);
    CollapseRunsShape(l, false);
    CollapseRunsKeepsAlnums(l, false);
    assert NameSlug(name) == Take(StripEdgeHyphens(c), 40);
    if Alnums(l) != [] {
      StripKeepsAlnum(c);
    } else {
      StripLoneHyphen(c);
    }
  }

  /** Lower-casing works piece by piece. */
  lemma AsciiLowerAppend(a: string, b: string)
    ensures AsciiLower(a + b) == AsciiLower(a) + AsciiLower(b)
  {
  }

  /** A prefix of kept characters passes through unchanged. */
  lemma {:induction false} CollapseKeptPrefix(a: string, b: string, keepHyphen: bool)
    requires forall i :: 0 <= i < |a| ==> Kept(a[i], keepHyphen)
    ensures CollapseRuns(a + b, keepHyphen) == a + CollapseRuns(b, keepHyphen)
    decreases |a|
  {
    if a == [] {
      assert a + b == b;
    } else {
      assert (a + b)[0] == a[0] && (a + b)[1..] == a[1..] + b;
      CollapseKeptPrefix(a[1..], b, keepHyphen);
      calc {
        CollapseRuns(a + b, keepHyphen);
        [a[0]] + CollapseRuns(a[1..] + b, keepHyphen);
        [a[0]] + (a[1..] + CollapseRuns(b, keepHyphen));
        { assert [a[0]] + a[1..] == a; }
        a + CollapseRuns(b, keepHyphen);
      }
    }
  }

  /** A whole run of other characters, followed by a kept one or by the end, becomes one hyphen. */
  lemma CollapseRun(a: string, b: string, keepHyphen: bool)
    requires a != [] && NoneKept(a, keepHyphen)
    requires b != [] ==> Kept(b[0], keepHyphen)
    ensures CollapseRuns(a + b, keepHyphen) == "-" + CollapseRuns(b, keepHyphen)
  {
    var s := a + b;
    assert s[0] == a[0] && !Kept(s[0], keepHyphen);
    RunEndPrefix(a, b, 1, keepHyphen);
    assert s[|a|..] == b;
  }

  /** The run starting inside `a` ends where `b` begins. */
  lemma {:induction false} RunEndPrefix(a: string, b: string, lo: nat, keepHyphen: bool)
    requires lo <= |a| && NoneKept(a, keepHyphen)
    requires b != [] ==> Kept(b[0], keepHyphen)
    ensures RunEnd(a + b, lo, keepHyphen) == |a|
    decreases |a| - lo
  {
    if lo < |a| {
      assert (a + b)[lo] == a[lo];
      RunEndPrefix(a, b, lo + 1, keepHyphen);
    } else if b != [] {
      assert (a + b)[lo] == b[0];
    }
  }

  /** Characters that are neither ASCII letters nor digits, whatever their case. */
  predicate IsSeparator(s: string, keepHyphen: bool) {
    forall i :: 0 <= i < |s| ==> !Kept(LowerChar(s[i]), keepHyphen)
  }

  /** Letters and digits, in any case. */
  predicate IsWord(s: string) {
    s != [] && forall i :: 0 <= i < |s| ==> IsAlnum(LowerChar(s[i]))
  }

  predicate AllAlnum(s: string) {
    forall i :: 0 <= i < |s| ==> IsAlnum(s[i])
  }

  lemma CollapseWords(la: string, ls: string, lb: string, lt: string, keepHyphen: bool)
    requires AllAlnum(la) && AllAlnum(lb) && lb != [] && ls != []
    requires NoneKept(ls, keepHyphen) && NoneKept(lt, keepHyphen)
    ensures CollapseRuns(la + (ls + (lb + lt)), keepHyphen)
      == la + ("-" + (lb + (if lt == [] then [] else "-")))
  {
    var x := if lt == [] then [] else "-";
    var tl := CollapseRuns(lt, keepHyphen);
    if lt != [] {
      CollapseRun(lt, [], keepHyphen);
      assert lt + [] == lt;
      assert CollapseRuns([], keepHyphen) == [];
    }
    assert tl == x;
    CollapseKeptPrefix(lb, lt, keepHyphen);
    var mid := CollapseRuns(lb + lt, keepHyphen);
    assert mid == lb + x;
    assert (lb + lt)[0] == lb[0];
    CollapseRun(ls, lb + lt, keepHyphen);
    assert CollapseRuns(ls + (lb + lt), keepHyphen) == "-" + mid;
    CollapseKeptPrefix(la, ls + (lb + lt), keepHyphen);
  }

  lemma StripWords(la: string, lb: string, x: string)
    requires AllAlnum(la) && AllAlnum(lb) && la != [] && lb != []
    requires x == [] || x == "-"
    ensures StripEdgeHyphens(la + ("-" + (lb + x))) == la + "-" + lb
  {
    var w := la + "-" + lb;
    assert la + ("-" + (lb + x)) == w + x;
    assert (w + x)[0] == la[0];
    assert w[|w| - 1] == lb[|lb| - 1];
    if x == "-" {
      assert (w + x)[..|w + x| - 1] == w;
    } else {
      assert w + x == w;
    }
  }

  lemma LowerFour(a: string, sep: string, b: string, tail: string)
    ensures AsciiLower(a + sep + b + tail)
      == AsciiLower(a) + (AsciiLower(sep) + (AsciiLower(b) + AsciiLower(tail)))
  {
    assert a + sep + b + tail == a + (sep + (b + tail)) by {
      assert a + sep + b == a + (sep + b);
      assert (sep + b) + tail == sep + (b + tail);
    }
    AsciiLowerAppend(b, tail);
    AsciiLowerAppend(sep, b + tail);
    AsciiLowerAppend(a, sep + (b + tail));
  }

  lemma CollapseTwoWords(a: string, sep: string, b: string, tail: string, keepHyphen: bool)
    requires IsWord(a) && IsWord(b) && sep != []
    requires IsSeparator(sep, keepHyphen) && IsSeparator(tail, keepHyphen)
    ensures StripEdgeHyphens(CollapseRuns(AsciiLower(a + sep + b + tail), keepHyphen))
      == AsciiLower(a) + "-" + AsciiLower(b)
  {
    var la, ls, lb, lt := AsciiLower(a), AsciiLower(sep), AsciiLower(b), AsciiLower(tail);
    LowerFour(a, sep, b, tail);
    assert AllAlnum(la) && AllAlnum(lb);
    assert NoneKept(ls, keepHyphen) && NoneKept(lt, keepHyphen);
    CollapseWords(la, ls, lb, lt, keepHyphen);
    StripWords(la, lb, if lt == [] then [] else "-");
  }

  /** A name of two words: `Jo Ann!` gives `jo-ann`. */
  lemma NameSlugOfTwoWords(a: string, sep: string, b: string, tail: string)
    requires IsWord(a) && IsWord(b) && sep != [] && |a| + 1 + |b| <= 40
    requires IsSeparator(sep, false) && IsSeparator(tail, false)
    ensures NameSlug(a + sep + b + tail) == AsciiLower(a) + "-" + AsciiLower(b)
  {
    CollapseTwoWords(a, sep, b, tail, false);
  }

  /** A desired slug of two words: `Cool_Slug!!` gives `cool-slug`. */
  lemma DesiredSlugOfTwoWords(a: string, sep: string, b: string, tail: string)
    requires IsWord(a) && IsWord(b) && sep != [] && |a| + 1 + |b| <= 48
    requires IsSeparator(sep, true) && IsSeparator(tail, true)
    ensures DesiredSlug(Some(a + sep + b + tail)) == AsciiLower(a) + "-" + AsciiLower(b)
  {
    CollapseTwoWords(a, sep, b, tail, true);
    assert a + sep + b + tail != "";
  }

  /** The trimmed name `Jo Ann!` gives the slug `jo-ann`.
      The literals are parameters fixed by the `requires`, which keeps the
      solver from unfolding them all at once. */
  lemma NameSlugExample(a: string, sep: string, b: string, tail: string)
    requires a == "Jo" && sep == " " && b == "Ann" && tail == "!"
    ensures NameSlug(a + sep + b + tail) == "jo-ann"
  {
    assert IsWord(a) && IsWord(b) by { }
    assert IsSeparator(sep, false) && IsSeparator(tail, false) by { }
    assert AsciiLower(a) + "-" + AsciiLower(b) == "jo-ann" by {
      assert AsciiLower(a) == "jo" && AsciiLower(b) == "ann";
    }
    NameSlugOfTwoWords(a, sep, b, tail);
  }

  /** The desired slug `Cool_Slug!!` becomes `cool-slug`.
      The literals are parameters fixed by the `requires`, which keeps the
      solver from unfolding them all at once. */
  lemma DesiredSlugExample(a: string, sep: string, b: string, tail: string)
    requires a == "Cool" && sep == "_" && b == "Slug" && tail == "!!"
    ensures DesiredSlug(Some(a + sep + b + tail)) == "cool-slug"
  {
    assert IsWord(a) && IsWord(b) by { }
    assert IsSeparator(sep, true) && IsSeparator(tail, true) by { }
    assert AsciiLower(a) + "-" + AsciiLower(b) == "cool-slug" by {
      assert AsciiLower(a) == "cool" && AsciiLower(b) == "slug";
    }
    DesiredSlugOfTwoWords(a, sep, b, tail);
  }

  /** Only one hyphen is stripped at each edge, so a desired slug may still
      start and end with a hyphen. */
  lemma DesiredSlugKeepsDoubledEdgeHyphens(slug: string)
    requires slug == "--a--"
    ensures DesiredSlug(Some(slug)) == "-a-"
  {
    assert forall i :: 0 <= i < |slug| ==> LowerChar(slug[i]) == slug[i];
    assert AsciiLower(slug) == slug;
    assert forall i :: 0 <= i < |slug| ==> Kept(slug[i], true);
    CollapseRunsIdentity(slug, true);
  }

  /** The cut to 48 characters comes after stripping, so it can leave a
      trailing hyphen. */
  lemma DesiredSlugCutLeavesHyphen(slug: string)
    requires slug == Repeat('a', 47) + "-b"
    ensures var r := DesiredSlug(Some(slug)); |r| == 48 && r[47] == '-'
  {
    assert forall i :: 0 <= i < |slug| ==> LowerChar(slug[i]) == slug[i];
    assert AsciiLower(slug) == slug;
    assert forall i :: 0 <= i < |slug| ==> Kept(slug[i], true);
    CollapseRunsIdentity(slug, true);
    assert slug[0] == 'a' && slug[|slug| - 1] == 'b';
  }

  /** The same holds for the slug taken from the name: a 39-letter word and
      a second word are cut right after the hyphen between them. */
  lemma NameSlugCutLeavesHyphen(name: string)
    requires name == Repeat('a', 39) + " b"
    ensures var r := NameSlug(name); |r| == 40 && r[39] == '-'
  {
    var la := Repeat('a', 39);
    assert forall i :: 0 <= i < |name| ==> LowerChar(name[i]) == name[i];
    assert AsciiLower(name) == name;
    assert name == la + (" " + ("b" + ""));
    CollapseWords(la, " ", "b", "", false);
    StripWords(la, "b", []);
  }

  function Repeat(c: char, n: nat): (r: string)
    ensures |r| == n && forall i :: 0 <= i < n ==> r[i] == c
  {
    seq(n, _ => c)
  }

  /** A string made only of kept characters is left unchanged. */
  lemma {:induction false} CollapseRunsIdentity(s: string, keepHyphen: bool)
    requires forall i :: 0 <= i < |s| ==> Kept(s[i], keepHyphen)
    ensures CollapseRuns(s, keepHyphen) == s
    decreases |s|
  {
    if s != [] {
      CollapseRunsIdentity(s[1..], keepHyphen);
    }
  }
}
