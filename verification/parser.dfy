/**
 `parse_bot_response`: the four independent searches over the bot's reply and
 the clean-up of the country text.
 */
module Parser {
  import opened Optional
  import opened Text
  import opened Patterns

  /** The parsed mapping. A field is `None` where the dictionary has no key. */
  datatype Record = Record(
    phoneNumber: Option<string>,
    country: Option<string>,
    countryCode: Option<string>,
    telegramId: Option<string>)

  const Empty := Record(None, None, None, None)

  /** The box-drawing characters the bot uses to draw its tree: `└` and `├`. */
  predicate IsGlyph(c: char) {
    c == '└' || c == '├'
  }

  predicate NotGlyph(c: char) {
    !IsGlyph(c)
  }

  /** The part of `s` before its first tree glyph of either kind (`UpToGlyphAt`). */
  function UpToGlyph(s: string): (r: string)
    ensures |r| <= |s|
  {
    if |s| == 0 || IsGlyph(s[0]) then [] else [s[0]] + UpToGlyph(s[1..])
  }

  /** What a country value looks like: a single line without backticks or tree
      glyphs and with nothing left to strip. It may be empty. */
  ghost predicate CleanCountry(c: string) {
    All(c, LineChar) && All(c, NotGlyph) && Stripped(c)
  }

  /** One clean-up step of the country: when `c` occurs, keep what precedes
      its first occurrence, stripped. */
  function CutAt(x: string, c: char): (r: string)
    ensures forall k :: 0 <= k < |r| ==> r[k] != c
    ensures Stripped(x) ==> Stripped(r)
  {
    if c in x then
      var b := Before(x, c);
      StripKeeps(b, y => y != c);
      Strip(b)
    else x
  }

  /** A clean-up step keeps only characters of its input. */
  lemma {:induction false} CutAtKeeps(x: string, c: char, P: char -> bool)
    ensures All(x, P) ==> All(CutAt(x, c), P)
  {
    if c in x && All(x, P) {
      BeforeKeeps(x, c, P);
      StripKeeps(Before(x, c), P);
    }
  }

  /** Any character but `└`: what the first clean-up step leaves. */
  predicate NotCorner(c: char) { c != '└' }

  /** The clean-up of the captured country text: strip, then cut at `└`, then
      cut at `├`. */
  function TidyCountry(captured: string): (r: string)
    ensures Stripped(r) && All(r, NotGlyph)
    ensures All(captured, LineChar) ==> All(r, LineChar)
  {
    var c1 := Strip(captured);
    var c2 := CutAt(c1, '└');
    var c3 := CutAt(c2, '├');
    CutAtKeeps(c2, '├', NotCorner);
    StripKeeps(captured, LineChar);
    CutAtKeeps(c1, '└', LineChar);
    CutAtKeeps(c2, '├', LineChar);
    c3
  }

  /** The phone search: the plain pattern, else the emoji-prefixed one. */
  function FindPhone(t: string): (r: Option<string>)
    ensures r.Some? ==> SignedDigits(r.value, MaybePlus)
  {
    match SearchGroup(PhoneNumber, t)
    case Some(p) => Some(p)
    case None => SearchGroup(EmojiPhoneNumber, t)
  }

  /** The country search followed by the clean-up. */
  function FindCountry(t: string): (r: Option<string>)
    ensures r.Some? ==> CleanCountry(r.value)
  {
    match SearchGroup(Country, t)
    case None => None
    case Some(c) => Some(TidyCountry(c))
  }

  /** `parse_bot_response`. `None` stands for a message without text. */
  function Parse(text: Option<string>): (r: Record)
    ensures text == None || text == Some("") ==> r == Empty
    ensures r.phoneNumber.Some? ==> SignedDigits(r.phoneNumber.value, MaybePlus)
    ensures r.country.Some? ==> CleanCountry(r.country.value)
    ensures r.countryCode.Some? ==> SignedDigits(r.countryCode.value, Plus)
    ensures r.telegramId.Some? ==> SignedDigits(r.telegramId.value, NoSign)
  {
    if text.None? || text.value == "" then Empty
    else
      var t := text.value;
      Record(FindPhone(t), FindCountry(t), SearchGroup(CountryCode, t), SearchGroup(QueryId, t))
  }

  // ---------------------------------------------------------------------------
  // The country clean-up cuts at the first glyph of either kind

  /** `UpToGlyph` stops at the first glyph and nowhere else. */
  lemma {:induction false} UpToGlyphAt(s: string, q: nat)
    requires q <= |s|
    requires forall k :: 0 <= k < q ==> !IsGlyph(s[k])
    requires q == |s| || IsGlyph(s[q])
    ensures UpToGlyph(s) == s[..q]
    decreases q
  {
    if q > 0 {
      UpToGlyphAt(s[1..], q - 1);
      assert s[..q] == [s[0]] + s[1..][..q - 1];
    }
  }

  /** Leading whitespace is never a glyph, so `lstrip` and the cut commute. */
  lemma {:induction false} LStripUpToGlyph(y: string)
    ensures LStrip(UpToGlyph(y)) == UpToGlyph(LStrip(y))
    decreases |y|
  {
    if |y| > 0 && IsSpace(y[0]) {
      var rest := UpToGlyph(y[1..]);
      assert !IsGlyph(y[0]);
      assert UpToGlyph(y) == [y[0]] + rest;
      assert ([y[0]] + rest)[1..] == rest;
      assert LStrip([y[0]] + rest) == LStrip(rest);
      assert LStrip(y) == LStrip(y[1..]);
      LStripUpToGlyph(y[1..]);
    } else {
      assert LStrip(y) == y;
      var c := UpToGlyph(y);
      if |c| > 0 {
        assert c[0] == y[0];
      }
    }
  }

  /** Trailing whitespace either is cut off or is stripped afterwards. */
  lemma {:induction false} RStripUpToGlyphTrailing(u: string, w: string)
    requires AllSpace(w)
    ensures RStrip(UpToGlyph(u + w)) == RStrip(UpToGlyph(u))
    decreases |u|
  {
    if |u| == 0 {
      assert u + w == w;
      UpToGlyphAt(w, |w|);
      assert w[..|w|] == w;
      RStripTrailingSpace([], w);
      assert [] + w == w;
    } else if IsGlyph(u[0]) {
      assert (u + w)[0] == u[0];
    } else {
      assert (u + w)[0] == u[0];
      assert (u + w)[1..] == u[1..] + w;
      RStripUpToGlyphTrailing(u[1..], w);
      RStripCons(u[0], UpToGlyph(u[1..] + w));
      RStripCons(u[0], UpToGlyph(u[1..]));
    }
  }

  /** Stripping before cutting at the first glyph changes nothing once the cut
      piece is stripped too: glyphs are not whitespace. */
  lemma {:induction false} StripThenCut(y: string)
    ensures Strip(UpToGlyph(Strip(y))) == Strip(UpToGlyph(y))
  {
    var z := LStrip(y);
    var u := RStrip(z);
    LStripOfPrefix(z, u);
    LStripUpToGlyph(u);
    LStripUpToGlyph(y);
    RStripUpToGlyphOfRStrip(z);
  }

  /** A prefix of a string that starts with no whitespace starts with none either. */
  lemma LStripOfPrefix(z: string, u: string)
    requires u <= z
    requires |z| == 0 || !IsSpace(z[0])
    ensures LStrip(u) == u
  {
    if |u| > 0 {
      assert u[0] == z[0];
    }
  }

  /** Cutting at the first glyph and then right-stripping ignores trailing whitespace. */
  lemma RStripUpToGlyphOfRStrip(z: string)
    ensures RStrip(UpToGlyph(RStrip(z))) == RStrip(UpToGlyph(z))
  {
    var u := RStrip(z);
    assert z == u + z[|u|..];
    RStripUpToGlyphTrailing(u, z[|u|..]);
  }

  /** Cutting at the first `c` first, for a glyph `c`, does not move the first glyph. */
  lemma {:induction false} CutBeforeGlyph(x: string, c: char)
    requires IsGlyph(c)
    ensures UpToGlyph(Before(x, c)) == UpToGlyph(x)
    decreases |x|
  {
    if |x| > 0 && x[0] != c {
      assert ([x[0]] + Before(x[1..], c))[0] == x[0];
      if !IsGlyph(x[0]) {
        assert ([x[0]] + Before(x[1..], c))[1..] == Before(x[1..], c);
        CutBeforeGlyph(x[1..], c);
      }
    }
  }

  /** One clean-up step keeps the value the whole clean-up aims at. */
  lemma {:induction false} CutAtKeepsTarget(x: string, c: char)
    requires IsGlyph(c)
    ensures Strip(UpToGlyph(CutAt(x, c))) == Strip(UpToGlyph(x))
  {
    if c in x {
      StripThenCut(Before(x, c));
      CutBeforeGlyph(x, c);
    }
  }

  /** The clean-up of the country text keeps what precedes the first `└` or `├`,
      whichever comes first, and strips it. */
  lemma {:induction false} TidyCountryCutsAtFirstGlyph(captured: string)
    ensures TidyCountry(captured) == Strip(UpToGlyph(captured))
  {
    var c1 := Strip(captured);
    var c2 := CutAt(c1, '└');
    var c3 := CutAt(c2, '├');
    StripThenCut(captured);
    CutAtKeepsTarget(c1, '└');
    CutAtKeepsTarget(c2, '├');
    UpToGlyphAt(c3, |c3|);
    assert c3[..|c3|] == c3;
    StrippedFixed(c3);
  }

  // ---------------------------------------------------------------------------
  // Each field is the group of the pattern's leftmost match

  /** The emoji-prefixed phone search never decides the phone number. */
  lemma {:induction false} PhoneFallbackIsDead(t: string)
    ensures Parse(Some(t)).phoneNumber == SearchGroup(PhoneNumber, t)
  {
    EmojiPhoneNeedsPlainPhone(t);
    if t == "" {
      SearchFailsExactly(PhoneNumber, t);
    } else {
      assert Parse(Some(t)).phoneNumber == FindPhone(t);
    }
  }

  /** The phone number is the token of the leftmost `Phone Number:` match. */
  lemma {:induction false} PhoneIsLeftmostToken(t: string, i: nat, g: Group)
    requires Matches(PhoneNumber, t, i, g)
    requires forall i': nat, g' :: i' < i ==> !Matches(PhoneNumber, t, i', g')
    ensures Parse(Some(t)).phoneNumber == Some(t[g.start..g.end])
  {
    SearchFindsLeftmost(PhoneNumber, t, i, g);
    PhoneFallbackIsDead(t);
  }

  /** There is no phone number exactly when `Phone Number:` matches nowhere. */
  lemma {:induction false} PhoneAbsentExactly(t: string)
    ensures Parse(Some(t)).phoneNumber.None? <==>
      forall i: nat, g :: !TickedMatch(t, i, "Phone Number:", MaybePlus, g)
  {
    PhoneFallbackIsDead(t);
    SearchFailsExactly(PhoneNumber, t);
    assert forall i: nat, g :: Matches(PhoneNumber, t, i, g) == TickedMatch(t, i, "Phone Number:", MaybePlus, g);
  }

  /** The country is the leftmost `Country:` capture, cut at its first glyph and stripped. */
  lemma {:induction false} CountryIsLeftmostLine(t: string, i: nat, g: Group)
    requires Matches(Country, t, i, g)
    requires forall i': nat, g' :: i' < i ==> !Matches(Country, t, i', g')
    ensures Parse(Some(t)).country == Some(Strip(UpToGlyph(t[g.start..g.end])))
  {
    SearchFindsLeftmost(Country, t, i, g);
    TidyCountryCutsAtFirstGlyph(t[g.start..g.end]);
  }

  /** There is no country exactly when `Country:\s*[^\n`]+` cannot match anywhere. */
  lemma {:induction false} CountryAbsentExactly(t: string)
    ensures Parse(Some(t)).country.None? <==>
      forall i: nat, g :: !LineMatch(t, i, "Country:", g)
  {
    SearchFailsExactly(Country, t);
    forall i: nat, g | LineMatch(t, i, "Country:", g)
      ensures MatchAt(Country, t, i).Some?
    {
      MatchLineComplete(t, i, "Country:", g);
    }
    if t == "" {
      assert forall i: nat, g :: !LineMatch(t, i, "Country:", g);
    } else {
      assert Parse(Some(t)).country.None? <==> SearchGroup(Country, t).None?;
    }
  }

  /** The country code is the token of the leftmost `Country Code:` match. */
  lemma {:induction false} CountryCodeIsLeftmostToken(t: string, i: nat, g: Group)
    requires Matches(CountryCode, t, i, g)
    requires forall i': nat, g' :: i' < i ==> !Matches(CountryCode, t, i', g')
    ensures Parse(Some(t)).countryCode == Some(t[g.start..g.end])
  {
    SearchFindsLeftmost(CountryCode, t, i, g);
  }

  /** The Telegram id is the token of the leftmost `Query ID:` match. */
  lemma {:induction false} TelegramIdIsLeftmostToken(t: string, i: nat, g: Group)
    requires Matches(QueryId, t, i, g)
    requires forall i': nat, g' :: i' < i ==> !Matches(QueryId, t, i', g')
    ensures Parse(Some(t)).telegramId == Some(t[g.start..g.end])
  {
    SearchFindsLeftmost(QueryId, t, i, g);
  }
}
