/** The wish composer and tone normaliser of `src/lib/wish.ts`. */
module Wish {
  import opened Wrappers
  import opened JsString

  /** `WishTone`: the closed set of tones. */
  datatype Tone = Sweet | Fun | Poetic

  /** The string literal a tone stands for. */
  function ToneName(t: Tone): string {
    match t
    case Sweet => "sweet"
    case Fun => "fun"
    case Poetic => "poetic"
  }

  const ToneNames: seq<string> := [ToneName(Sweet), ToneName(Fun), ToneName(Poetic)]

  /** The default emoji, U+1F389 PARTY POPPER. */
  const PartyPopper: string := "🎉"

  /** `tones.includes(s)`, giving back the tone that matched. */
  function ParseTone(s: string): (r: Option<Tone>)
    ensures r.Some? <==> s in ToneNames
    ensures r.Some? ==> ToneName(r.value) == s
  {
    if s == "sweet" then Some(Sweet)
    else if s == "fun" then Some(Fun)
    else if s == "poetic" then Some(Poetic)
    else None
  }

  /** `normalizeTone(val)`: lower-cases `val || ''` and keeps it when it names
      a tone; any other value, and a missing one, becomes `sweet`. */
  function NormalizeTone(v: Option<string>): (t: Tone)
    ensures AsciiLower(Or(v, "")) in ToneNames ==> ToneName(t) == AsciiLower(Or(v, ""))
    ensures AsciiLower(Or(v, "")) !in ToneNames ==> t == Sweet
  {
    ParseTone(AsciiLower(Or(v, ""))).GetOr(Sweet)
  }

  /** A tone's name is already lower case and parses back to the tone. */
  lemma ToneNameRoundTrip(t: Tone)
    ensures AsciiLower(ToneName(t)) == ToneName(t)
    ensures ParseTone(ToneName(t)) == Some(t)
  {
    var n := ToneName(t);
    assert forall i :: 0 <= i < |n| ==> 'a' <= n[i] <= 'z';
    assert AsciiLower(n) == n;
  }

  /** Normalising an already normalised tone changes nothing. */
  lemma {:induction false} NormalizeToneIdempotent(v: Option<string>)
    ensures NormalizeTone(Some(ToneName(NormalizeTone(v)))) == NormalizeTone(v)
  {
    var t := NormalizeTone(v);
    ToneNameRoundTrip(t);
    assert Or(Some(ToneName(t)), "") == ToneName(t);
  }

  /** Any capitalisation of a tone name is accepted.
      The literals are parameters fixed by the `requires`, which keeps the
      solver from unfolding them all at once. */
  lemma NormalizeToneIgnoresCase(a: string, b: string, c: string)
    requires a == "SWEET" && b == "Fun" && c == "poeTIC"
    ensures NormalizeTone(Some(a)) == Sweet
    ensures NormalizeTone(Some(b)) == Fun
    ensures NormalizeTone(Some(c)) == Poetic
  {
    assert AsciiLower(a) == "sweet";
    assert AsciiLower(b) == "fun";
    assert AsciiLower(c) == "poetic";
  }

  /** Unknown words, the empty string and a missing value become `sweet`.
      The literals are parameters fixed by the `requires`, which keeps the
      solver from unfolding them all at once. */
  lemma NormalizeToneFallsBack(w: string)
    requires w == "loud"
    ensures NormalizeTone(Some(w)) == Sweet
    ensures NormalizeTone(Some("")) == Sweet
    ensures NormalizeTone(None) == Sweet
  {
    assert AsciiLower(w) == w;
  }

  /** One string per tone: the object literals `{ sweet: …, fun: …, poetic: … }`
      that `generateWish` indexes with `[tone]`. */
  datatype ToneTable = ToneTable(sweet: string, fun: string, poetic: string) {
    function At(t: Tone): string {
      match t
      case Sweet => sweet
      case Fun => fun
      case Poetic => poetic
    }
  }

  /** The intro's words before the name. */
  const Greetings := ToneTable("Happy Birthday, ", "Hey ", "Dearest ")

  /** The intro's words between the name and the emoji. */
  const Joiners := ToneTable("! ", "! ", ", ")

  /** The intro's words after the emoji. */
  const IntroEndings := ToneTable(
    " Today is all about you—may your heart feel full and your smile shine bright.",
    " Another lap around the sun—queue the cake, laughs, and zero responsibilities!",
    " on this day, the sky hums softly and time pauses to celebrate you.")

  /** The middle passages, which mention neither name nor emoji. */
  const Middles := ToneTable(
    "Wishing you cuddly moments, sweet surprises, and memories that wrap you up like a warm hug.",
    "May your day be packed with confetti moments, inside jokes, and happy chaos that makes the best stories.",
    "May joy fall like petals at your feet, and may gentle light follow every step you take this year.")

  /** The closing passages' words before the emoji. */
  const Farewells := ToneTable(
    "You’re loved more than you know—here’s to a beautiful year ahead! ",
    "Level up unlocked—go be awesome and save me some cake! ",
    "Here’s to your radiant journey ahead—soft, bright, and wonderfully you. ")

  /** The opening passage, with the name and emoji substituted. */
  function Intro(t: Tone, name: string, e: string): string {
    Greetings.At(t) + name + Joiners.At(t) + e + IntroEndings.At(t)
  }

  /** The middle passage. */
  function Middle(t: Tone): string {
    Middles.At(t)
  }

  /** The closing passage, ending with the emoji. */
  function Close(t: Tone, e: string): string {
    Farewells.At(t) + e
  }

  /** The sign-off: present only when the trimmed sender is non-empty. */
  function Signature(from: Option<string>): string {
    if from.Some? && Trim(from.value) != "" then "\n\nWith love,\n" + Trim(from.value) else ""
  }

  /** `generateWish(name, { tone, emoji, from })`; `None` stands for an omitted option. */
  function GenerateWish(name: string, tone: Option<Tone>, emoji: Option<string>, from: Option<string>): string {
    var t := tone.GetOr(Sweet);
    var e := emoji.GetOr(PartyPopper);
    Unsigned(t, name, e) + Signature(from)
  }

  /** The three passages separated by blank lines. */
  function Unsigned(t: Tone, name: string, e: string): string {
    Intro(t, name, e) + "\n\n" + Middle(t) + "\n\n" + Close(t, e)
  }

  /** A text assembled as `g + name + j + e + ie` contains the name and the emoji. */
  lemma ContainsBoth(g: string, name: string, j: string, e: string, ie: string)
    ensures Contains(g + name + j + e + ie, name) && Contains(g + name + j + e + ie, e)
  {
    ContainsSuffix(g, name);
    ContainsAppend(g + name, j, name);
    ContainsAppend(g + name + j, e, name);
    ContainsAppend(g + name + j + e, ie, name);
    ContainsSuffix(g + name + j, e);
    ContainsAppend(g + name + j + e, ie, e);
  }

  /** The intro names the recipient and shows the emoji, and the close ends
      with the emoji, for every tone. */
  lemma IntroMentionsNameAndEmoji(t: Tone, name: string, e: string)
    ensures Contains(Intro(t, name, e), name) && Contains(Intro(t, name, e), e)
    ensures EndsWith(Close(t, e), e)
  {
    ContainsBoth(Greetings.At(t), name, Joiners.At(t), e, IntroEndings.At(t));
    var c := Close(t, e);
    assert c[|c| - |e|..] == e;
  }

  /** The message opens with the intro. */
  lemma WishOpensWithIntro(name: string, tone: Option<Tone>, emoji: Option<string>, from: Option<string>)
    ensures StartsWith(GenerateWish(name, tone, emoji, from),
                       Intro(tone.GetOr(Sweet), name, emoji.GetOr(PartyPopper)))
  {
    var t, e := tone.GetOr(Sweet), emoji.GetOr(PartyPopper);
    var i := Intro(t, name, e);
    assert i[..|i|] == i;
    StartsWithAppend(i, "\n\n", i);
    StartsWithAppend(i + "\n\n", Middle(t), i);
    StartsWithAppend(i + "\n\n" + Middle(t), "\n\n", i);
    StartsWithAppend(i + "\n\n" + Middle(t) + "\n\n", Close(t, e), i);
    StartsWithAppend(Unsigned(t, name, e), Signature(from), i);
  }

  /** The unsigned message ends with the closing passage. */
  lemma UnsignedEndsWithClose(t: Tone, name: string, e: string)
    ensures EndsWith(Unsigned(t, name, e), Close(t, e))
  {
    var u := Unsigned(t, name, e);
    var c := Close(t, e);
    var head := Intro(t, name, e) + "\n\n" + Middle(t) + "\n\n";
    assert u == head + c;
    assert u[|u| - |c|..] == c;
  }

  /** The sign-off is the only part that depends on the sender: with a
      non-empty trimmed sender the message is the unsigned one followed by
      `With love,` and the trimmed sender; otherwise it is the unsigned one,
      which ends with the closing passage. */
  lemma SignatureRule(name: string, tone: Option<Tone>, emoji: Option<string>, from: Option<string>)
    ensures var unsigned := GenerateWish(name, tone, emoji, None);
      && EndsWith(unsigned, Close(tone.GetOr(Sweet), emoji.GetOr(PartyPopper)))
      && (from.Some? && Trim(from.value) != "" ==>
            GenerateWish(name, tone, emoji, from) == unsigned + "\n\nWith love,\n" + Trim(from.value))
      && (from.None? || Trim(from.value) == "" ==> GenerateWish(name, tone, emoji, from) == unsigned)
  {
    var t, e := tone.GetOr(Sweet), emoji.GetOr(PartyPopper);
    var u := Unsigned(t, name, e);
    UnsignedEndsWithClose(t, name, e);
    assert GenerateWish(name, tone, emoji, None) == u + "";
    assert u + "" == u;
    assert GenerateWish(name, tone, emoji, from) == u + Signature(from);
    if from.Some? && Trim(from.value) != "" {
      var f := Trim(from.value);
      assert Signature(from) == "\n\nWith love,\n" + f;
      assert u + "\n\nWith love,\n" + f == u + ("\n\nWith love,\n" + f);
    }
  }

  /** A missing tone is `sweet` and a missing emoji is the party popper, but
      an explicitly empty emoji is kept empty (`??`, not `||`). */
  lemma DefaultOptions(name: string, tone: Option<Tone>, from: Option<string>)
    ensures forall e :: GenerateWish(name, None, e, from) == GenerateWish(name, Some(Sweet), e, from)
    ensures GenerateWish(name, tone, None, from) == GenerateWish(name, tone, Some(PartyPopper), from)
    ensures GenerateWish(name, tone, Some(""), from) != GenerateWish(name, tone, None, from)
  {
    var t := tone.GetOr(Sweet);
    var a := GenerateWish(name, tone, Some(""), from);
    var b := GenerateWish(name, tone, None, from);
    assert |b| == |a| + 2 * |PartyPopper|;
  }

  /** Each tone has its own intro, middle and close passage: their lengths
      already tell them apart. */
  lemma TonesAreDistinct(t1: Tone, t2: Tone, name: string, e: string)
    requires t1 != t2
    ensures Intro(t1, name, e) != Intro(t2, name, e)
    ensures Middle(t1) != Middle(t2)
    ensures Close(t1, e) != Close(t2, e)
  {
    assert |Greetings.sweet + Joiners.sweet + IntroEndings.sweet| == 95;
    assert |Greetings.fun + Joiners.fun + IntroEndings.fun| == 84;
    assert |Greetings.poetic + Joiners.poetic + IntroEndings.poetic| == 77;
    assert |Middles.sweet| == 91 && |Middles.fun| == 104 && |Middles.poetic| == 97;
    assert |Farewells.sweet| == 66 && |Farewells.fun| == 55 && |Farewells.poetic| == 72;
  }
}
