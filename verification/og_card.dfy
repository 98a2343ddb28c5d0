/** The text of the social-card image served by `src/app/og.png/route.ts`:
    the name taken from the query string, the title and subtitle chosen from
    it, and `escapeXml`, which makes them safe to place inside the SVG. */
module OgCard {
  import opened Wrappers
  import opened JsString

  /** `s.replace(/c/g, rep)` for a single character `c`. */
  function ReplaceChar(s: string, c: char, rep: string): (r: string)
    decreases |s|
  {
    if s == [] then [] else (if s[0] == c then rep else [s[0]]) + ReplaceChar(s[1..], c, rep)
  }

  /** `escapeXml(s)` as written: three global replacements, `&` first. */
  function EscapeXml(s: string): string {
    ReplaceChar(ReplaceChar(ReplaceChar(s, '&', "&amp;"), '<', "&lt;"), '>', "&gt;")
  }

  /** The entity each character stands for in the escaped text. */
  function EscapeChar(c: char): string {
    if c == '&' then "&amp;" else if c == '<' then "&lt;" else if c == '>' then "&gt;" else [c]
  }

  /** Reference definition: escape one character at a time. */
  function EscapeEach(s: string): string
    decreases |s|
  {
    if s == [] then [] else EscapeChar(s[0]) + EscapeEach(s[1..])
  }

  lemma {:induction false} ReplaceCharAppend(a: string, b: string, c: char, rep: string)
    ensures ReplaceChar(a + b, c, rep) == ReplaceChar(a, c, rep) + ReplaceChar(b, c, rep)
  {
    if a == [] {
      assert a + b == b;
    } else {
      var h := if a[0] == c then rep else [a[0]];
      assert (a + b)[0] == a[0] && (a + b)[1..] == a[1..] + b;
      ReplaceCharAppend(a[1..], b, c, rep);
      calc {
        ReplaceChar(a + b, c, rep);
        h + ReplaceChar(a[1..] + b, c, rep);
        h + (ReplaceChar(a[1..], c, rep) + ReplaceChar(b, c, rep));
        (h + ReplaceChar(a[1..], c, rep)) + ReplaceChar(b, c, rep);
      }
    }
  }

  lemma {:induction false} ReplaceCharAbsent(s: string, c: char, rep: string)
    requires c !in s
    ensures ReplaceChar(s, c, rep) == s
  {
    if s != [] {
      ReplaceCharAbsent(s[1..], c, rep);
    }
  }

  lemma ReplaceCharOne(x: char, c: char, rep: string)
    ensures ReplaceChar([x], c, rep) == if x == c then rep else [x]
  {
    assert [x][1..] == [];
  }

  /** `&` escapes to `&amp;`.
      The character and its entity are parameters fixed by the `requires`,
      which keeps the solver from unfolding the literals all at once. */
  lemma EscapeXmlOfAmpersand(x: char, amp: string)
    requires x == '&' && amp == "&amp;"
    ensures EscapeXml([x]) == amp
  {
    ReplaceCharOne(x, '&', amp);
    ReplaceCharAbsent(amp, '<', "&lt;");
    ReplaceCharAbsent(amp, '>', "&gt;");
  }

  /** `<` escapes to `&lt;`.
      The character and its entity are parameters fixed by the `requires`,
      which keeps the solver from unfolding the literals all at once. */
  lemma EscapeXmlOfLess(x: char, lt: string)
    requires x == '<' && lt == "&lt;"
    ensures EscapeXml([x]) == lt
  {
    ReplaceCharOne(x, '&', "&amp;");
    ReplaceCharOne(x, '<', lt);
    ReplaceCharAbsent(lt, '>', "&gt;");
  }

  lemma EscapeXmlOfOther(x: char)
    requires x != '&' && x != '<'
    ensures EscapeXml([x]) == if x == '>' then "&gt;" else [x]
  {
    ReplaceCharOne(x, '&', "&amp;");
    ReplaceCharOne(x, '<', "&lt;");
    ReplaceCharOne(x, '>', "&gt;");
  }

  /** The three passes escape each character on its own. */
  lemma EscapeXmlOfChar(x: char)
    ensures EscapeXml([x]) == EscapeChar(x)
  {
    if x == '&' {
      EscapeXmlOfAmpersand(x, "&amp;");
    } else if x == '<' {
      EscapeXmlOfLess(x, "&lt;");
    } else {
      EscapeXmlOfOther(x);
    }
  }

  /** Replacing `&` first means no entity is escaped twice: the three passes
      agree with escaping character by character. */
  lemma {:induction false} EscapeXmlCharwise(s: string)
    ensures EscapeXml(s) == EscapeEach(s)
  {
    if s != [] {
      var x, rest := s[0], s[1..];
      assert s == [x] + rest;
      var p1 := ReplaceChar(s, '&', "&amp;");
      ReplaceCharAppend([x], rest, '&', "&amp;");
      var p1x, p1r := ReplaceChar([x], '&', "&amp;"), ReplaceChar(rest, '&', "&amp;");
      ReplaceCharAppend(p1x, p1r, '<', "&lt;");
      var p2x, p2r := ReplaceChar(p1x, '<', "&lt;"), ReplaceChar(p1r, '<', "&lt;");
      ReplaceCharAppend(p2x, p2r, '>', "&gt;");
      EscapeXmlOfChar(x);
      EscapeXmlCharwise(rest);
    }
  }

  /** No character of `s` is an angle bracket. */
  predicate NoAngleBrackets(s: string) {
    forall i :: 0 <= i < |s| ==> s[i] != '<' && s[i] != '>'
  }

  predicate IsEntityAt(s: string, i: nat)
    requires i <= |s|
  {
    StartsWith(s[i..], "&amp;") || StartsWith(s[i..], "&lt;") || StartsWith(s[i..], "&gt;")
  }

  /** Every `&` of `s` begins one of the three entities. */
  predicate AmpersandsAreEntities(s: string) {
    forall i :: 0 <= i < |s| && s[i] == '&' ==> IsEntityAt(s, i)
  }

  /** Text put in front of `t` shifts its entities along. */
  lemma EntityShift(h: string, t: string, j: nat)
    requires j <= |t|
    ensures IsEntityAt(h + t, |h| + j) == IsEntityAt(t, j)
  {
    assert (h + t)[|h| + j..] == t[j..];
  }

  /** The escape of one character, in front of any text, holds no angle
      bracket and its only `&` starts the entity. */
  lemma EscapeCharSafe(x: char, t: string)
    ensures var h := EscapeChar(x);
      forall i :: 0 <= i < |h| ==>
        (h + t)[i] != '<' && (h + t)[i] != '>' && ((h + t)[i] == '&' ==> i == 0 && IsEntityAt(h + t, 0))
  {
    var h := EscapeChar(x);
    assert (h + t)[0..] == h + t;
    assert (h + t)[..|h|] == h;
  }

  lemma {:induction false} EscapeEachSafe(s: string)
    ensures NoAngleBrackets(EscapeEach(s))
    ensures AmpersandsAreEntities(EscapeEach(s))
    decreases |s|
  {
    if s != [] {
      EscapeEachSafe(s[1..]);
      var h, t := EscapeChar(s[0]), EscapeEach(s[1..]);
      var r := h + t;
      assert r == EscapeEach(s);
      EscapeCharSafe(s[0], t);
      forall i | 0 <= i < |r|
        ensures r[i] != '<' && r[i] != '>'
        ensures r[i] == '&' ==> IsEntityAt(r, i)
      {
        if i >= |h| {
          assert r[i] == t[i - |h|];
          EntityShift(h, t, i - |h|);
        }
      }
    }
  }

  /** The escaped text has no `<` or `>`, and each `&` in it starts `&amp;`,
      `&lt;` or `&gt;`: a name cannot open or close an SVG element. */
  lemma EscapeXmlSafe(s: string)
    ensures NoAngleBrackets(EscapeXml(s))
    ensures AmpersandsAreEntities(EscapeXml(s))
  {
    EscapeXmlCharwise(s);
    EscapeEachSafe(s);
  }

  /** Escaping leaves text without `&`, `<` and `>` unchanged. */
  lemma {:induction false} EscapeXmlIdentity(s: string)
    requires '&' !in s && '<' !in s && '>' !in s
    ensures EscapeXml(s) == s
  {
    ReplaceCharAbsent(s, '&', "&amp;");
    ReplaceCharAbsent(s, '<', "&lt;");
    ReplaceCharAbsent(s, '>', "&gt;");
  }

  /** Decodes the three entities from left to right; every other character is kept. */
  function UnescapeXml(t: string): string
    decreases |t|
  {
    if t == [] then []
    else if StartsWith(t, "&amp;") then "&" + UnescapeXml(t[5..])
    else if StartsWith(t, "&lt;") then "<" + UnescapeXml(t[4..])
    else if StartsWith(t, "&gt;") then ">" + UnescapeXml(t[4..])
    else [t[0]] + UnescapeXml(t[1..])
  }

  lemma UnescapeAmp(t: string)
    ensures UnescapeXml("&amp;" + t) == "&" + UnescapeXml(t)
  {
    var u := "&amp;" + t;
    assert u[..5] == "&amp;" && u[5..] == t;
  }

  lemma UnescapeLt(t: string)
    ensures UnescapeXml("&lt;" + t) == "<" + UnescapeXml(t)
  {
    var u := "&lt;" + t;
    assert u[..4] == "&lt;" && u[4..] == t;
    assert !StartsWith(u, "&amp;") by { assert u[1] == 'l'; }
  }

  lemma UnescapeGt(t: string)
    ensures UnescapeXml("&gt;" + t) == ">" + UnescapeXml(t)
  {
    var u := "&gt;" + t;
    assert u[..4] == "&gt;" && u[4..] == t;
    assert !StartsWith(u, "&amp;") && !StartsWith(u, "&lt;") by { assert u[1] == 'g'; }
  }

  lemma UnescapePlain(x: char, t: string)
    requires x != '&'
    ensures UnescapeXml([x] + t) == [x] + UnescapeXml(t)
  {
    var u := [x] + t;
    assert u[0] == x && u[1..] == t;
  }

  /** Decoding the entity (or plain character) standing for `x`, in front of any text. */
  lemma UnescapeStep(x: char, t: string)
    ensures UnescapeXml(EscapeChar(x) + t) == [x] + UnescapeXml(t)
  {
    if x == '&' {
      UnescapeAmp(t);
    } else if x == '<' {
      UnescapeLt(t);
    } else if x == '>' {
      UnescapeGt(t);
    } else {
      UnescapePlain(x, t);
    }
  }

  lemma {:induction false} UnescapeEscapeEach(s: string)
    ensures UnescapeXml(EscapeEach(s)) == s
    decreases |s|
  {
    if s != [] {
      UnescapeEscapeEach(s[1..]);
      UnescapeStep(s[0], EscapeEach(s[1..]));
      assert s == [s[0]] + s[1..];
    }
  }

  /** Decoding the escaped text gives back the input. */
  lemma UnescapeEscape(s: string)
    ensures UnescapeXml(EscapeXml(s)) == s
  {
    EscapeXmlCharwise(s);
    UnescapeEscapeEach(s);
  }

  /** Hence different texts are never escaped to the same text. */
  lemma EscapeXmlInjective(a: string, b: string)
    requires EscapeXml(a) == EscapeXml(b)
    ensures a == b
  {
    UnescapeEscape(a);
    UnescapeEscape(b);
  }

  /** The longest name the card shows. */
  const MaxNameLength := 40

  /** `(searchParams.get('name') || '').trim().slice(0, 40)`. */
  function CardName(param: Option<string>): (name: string)
    ensures |name| <= MaxNameLength
    ensures StartsWith(Trim(Or(param, "")), name)
    ensures name == "" <==> Trim(Or(param, "")) == ""
    ensures |Trim(Or(param, ""))| <= MaxNameLength ==> name == Trim(Or(param, ""))
    ensures |name| == if |Trim(Or(param, ""))| <= MaxNameLength then |Trim(Or(param, ""))| else MaxNameLength
  {
    Take(Trim(Or(param, "")), MaxNameLength)
  }

  /** The title and subtitle as placed in the SVG, both escaped. */
  datatype CardText = CardText(title: string, subtitle: string)

  function Title(name: string): string {
    if name != "" then "Happy Birthday, " + name + "!" else "Birthday Wish"
  }

  function Subtitle(name: string): string {
    if name != "" then "A sweet wish made just for you" else "Create and share personalized birthday wishes"
  }

  /** The two text nodes of the card for a request whose `name` parameter is
      `param`: a greeting naming the (trimmed, truncated) name when there is
      one, the generic title otherwise, both free of markup. */
  function CardTextFor(param: Option<string>): (c: CardText)
    ensures NoAngleBrackets(c.title) && NoAngleBrackets(c.subtitle)
    ensures AmpersandsAreEntities(c.title) && AmpersandsAreEntities(c.subtitle)
    ensures UnescapeXml(c.title) == Title(CardName(param))
    ensures UnescapeXml(c.subtitle) == Subtitle(CardName(param))
    ensures Trim(Or(param, "")) == "" ==> UnescapeXml(c.title) == "Birthday Wish"
  {
    var name := CardName(param);
    EscapeXmlSafe(Title(name));
    EscapeXmlSafe(Subtitle(name));
    UnescapeEscape(Title(name));
    UnescapeEscape(Subtitle(name));
    CardText(EscapeXml(Title(name)), EscapeXml(Subtitle(name)))
  }

  /** With a name, the title greets it and the subtitle is the personal one. */
  lemma TitleNamesRecipient(name: string)
    requires name != ""
    ensures StartsWith(Title(name), "Happy Birthday, ")
    ensures Contains(Title(name), name)
    ensures Subtitle(name) == "A sweet wish made just for you"
  {
    ContainsSuffix("Happy Birthday, ", name);
    ContainsAppend("Happy Birthday, " + name, "!", name);
  }
}
