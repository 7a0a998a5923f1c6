/**
 The five regular expressions of the bot-reply parser, each written out as a
 scanner that behaves like Python's backtracking `re` engine, next to a
 declarative statement of what it means for the pattern to match.

 Two shapes cover all five patterns:
   Ticked(caption, sign)   caption \s* `(sign \d+)`     with sign one of \+?, \+ or nothing
   Line(caption)           caption \s* ([^\n`]+)
 */
module Patterns {
  import opened Optional
  import opened Text

  /** What may stand before the digits of a backtick token. */
  datatype Sign = MaybePlus | Plus | NoSign

  datatype Pattern =
    | Ticked(caption: string, sign: Sign)
    | Line(caption: string)

  const PhoneNumber := Ticked("Phone Number:", MaybePlus)
  const EmojiPhoneNumber := Ticked("📞 Phone Number:", MaybePlus)
  const Country := Line("Country:")
  const CountryCode := Ticked("Country Code:", Plus)
  const QueryId := Ticked("Query ID:", NoSign)

  /** The span `start..end` of capturing group 1. */
  datatype Group = Group(start: nat, end: nat)

  /** A search result: where the whole match starts, and its group. */
  datatype Found = Found(at: nat, group: Group)

  /** The class `[^\n`]`. */
  predicate LineChar(c: char) {
    c != '\n' && c != '`'
  }

  ghost predicate DigitToken(t: string) {
    |t| > 0 && AllDigits(t)
  }

  /** The shape of a token: `\+?\d+`, `\+\d+` or `\d+`. */
  ghost predicate SignedDigits(t: string, sign: Sign) {
    match sign
    case NoSign => DigitToken(t)
    case Plus => |t| > 0 && t[0] == '+' && DigitToken(t[1..])
    case MaybePlus => DigitToken(t) || (|t| > 0 && t[0] == '+' && DigitToken(t[1..]))
  }

  /** The shape every group of `p` has. */
  ghost predicate Shaped(p: Pattern, t: string) {
    match p
    case Ticked(_, sign) => SignedDigits(t, sign)
    case Line(_) => |t| > 0 && forall k :: 0 <= k < |t| ==> LineChar(t[k])
  }

  predicate CaptionAt(text: string, i: nat, caption: string) {
    i + |caption| <= |text| && text[i..i + |caption|] == caption
  }

  /** `caption \s* `(token)`` matches `text` at `i`, with `g` the token. */
  ghost predicate TickedMatch(text: string, i: nat, caption: string, sign: Sign, g: Group) {
    && CaptionAt(text, i, caption)
    && i + |caption| < g.start <= g.end < |text|
    && AllSpace(text[i + |caption|..g.start - 1])
    && text[g.start - 1] == '`'
    && SignedDigits(text[g.start..g.end], sign)
    && text[g.end] == '`'
  }

  /** `caption \s* ([^\n`]+)` can match `text` at `i` with `\s*` ending where
      `g` starts and the group ending at `g.end`. */
  ghost predicate LineMatch(text: string, i: nat, caption: string, g: Group) {
    && CaptionAt(text, i, caption)
    && i + |caption| <= g.start < g.end <= |text|
    && AllSpace(text[i + |caption|..g.start])
    && forall k :: g.start <= k < g.end ==> LineChar(text[k])
  }

  /** Of all the ways `LineMatch` allows, the one a backtracking engine reports:
      `\s*` is greedy, so the largest start wins; then `+` is greedy, so the
      largest end for that start. */
  ghost predicate PreferredLineMatch(text: string, i: nat, caption: string, g: Group) {
    && LineMatch(text, i, caption, g)
    && forall h :: LineMatch(text, i, caption, h) ==>
         h.start < g.start || (h.start == g.start && h.end <= g.end)
  }

  /** `re.match` of `p` at position `i` of `text` succeeds with group `g`. */
  ghost predicate Matches(p: Pattern, text: string, i: nat, g: Group) {
    match p
    case Ticked(caption, sign) => TickedMatch(text, i, caption, sign, g)
    case Line(caption) => PreferredLineMatch(text, i, caption, g)
  }

  /** The backtick pattern at `i`. Backtracking never changes its outcome: the
      character after `\s*` must be a backtick, which is not whitespace, and the
      one after `\d+` must be a backtick, which is not a digit
      (`MatchTickedComplete`). */
  function MatchTickedAt(text: string, i: nat, caption: string, sign: Sign): (r: Option<Group>)
    ensures r.Some? ==> TickedMatch(text, i, caption, sign, r.value)
  {
    if !CaptionAt(text, i, caption) then None
    else
      var k := RunEnd(text, i + |caption|, IsSpace);
      if k == |text| || text[k] != '`' then None
      else
        match TokenAt(text, k + 1, sign)
        case None => None
        case Some(m) =>
          SliceAllSpace(text, i + |caption|, k);
          Some(Group(k + 1, m))
  }

  /** The backtick pattern matches in at most one way, and `MatchTickedAt` finds it. */
  lemma MatchTickedComplete(text: string, i: nat, caption: string, sign: Sign, g: Group)
    requires TickedMatch(text, i, caption, sign, g)
    ensures MatchTickedAt(text, i, caption, sign) == Some(g)
  {
    var lo := i + |caption|;
    var k := RunEnd(text, lo, IsSpace);
    AllSpaceSlice(text, lo, g.start - 1);
    assert g.start - 1 == k;
    TokenAtComplete(text, k + 1, sign, g.end);
  }

  /** `(sign\d+)`` at position `s`: the end of the token when a closing
      backtick follows it. No other token end fits (`TokenAtComplete`). */
  function TokenAt(text: string, s: nat, sign: Sign): (r: Option<nat>)
    requires s <= |text|
    ensures r.Some? ==> s <= r.value < |text| && text[r.value] == '`'
    ensures r.Some? ==> SignedDigits(text[s..r.value], sign)
  {
    var plus := s < |text| && text[s] == '+';
    if sign == Plus && !plus then None
    else
      var d := if plus && sign != NoSign then s + 1 else s;
      var m := RunEnd(text, d, IsDigit);
      if m == d || m == |text| || text[m] != '`' then None
      else
        assert text[s..m] == text[s..d] + text[d..m];
        Some(m)
  }

  /** Any backtick-closed token at `s` is the one `TokenAt` finds. */
  lemma TokenAtComplete(text: string, s: nat, sign: Sign, m: nat)
    requires s <= m < |text| && text[m] == '`' && SignedDigits(text[s..m], sign)
    ensures TokenAt(text, s, sign) == Some(m)
  {
    var plus := s < |text| && text[s] == '+';
    assert text[s..m][0] == text[s] by {
      if sign != NoSign && |text[s..m]| > 0 { }
    }
    var d := if plus && sign != NoSign then s + 1 else s;
    var e := RunEnd(text, d, IsDigit);
    DigitsUnique(text, s, d, e, sign);
  }

  /** A token's digits run from `d` up to the first non-digit. */
  lemma DigitsUnique(text: string, s: nat, d: nat, m: nat, sign: Sign)
    requires s <= d <= s + 1 && d <= m <= |text|
    requires d == s + 1 <==> s < |text| && text[s] == '+' && sign != NoSign
    requires sign == Plus ==> d == s + 1
    requires forall x :: d <= x < m ==> IsDigit(text[x])
    requires m == |text| || !IsDigit(text[m])
    ensures forall e :: s <= e < |text| && text[e] == '`' && SignedDigits(text[s..e], sign) ==> d < m == e
  {
    forall e | s <= e < |text| && text[e] == '`' && SignedDigits(text[s..e], sign)
      ensures d < m == e
    {
      var t := text[s..e];
      if d == s + 1 {
        assert t[0] == '+' && !IsDigit(t[0]);
        assert DigitToken(t[1..]);
        assert forall x :: d <= x < e ==> text[x] == t[1..][x - d];
      } else {
        assert DigitToken(t);
        assert forall x :: d <= x < e ==> text[x] == t[x - d];
      }
    }
  }

  /** `[^\n`]+` tried with `\s*` ending at `j`, then, backtracking one
      character at a time, at `j - 1`, … down to `lo`. */
  function TryLineFrom(text: string, lo: nat, j: nat): (r: Option<Group>)
    requires lo <= j <= |text|
    ensures r.Some? ==> lo <= r.value.start <= j && r.value.start < r.value.end <= |text|
    ensures r.Some? ==> forall k :: r.value.start <= k < r.value.end ==> LineChar(text[k])
    ensures r.Some? ==> r.value.end == |text| || !LineChar(text[r.value.end])
    ensures r.Some? ==> forall k :: r.value.start < k <= j && k < |text| ==> !LineChar(text[k])
    ensures r.None? ==> forall k :: lo <= k <= j && k < |text| ==> !LineChar(text[k])
    decreases j - lo
  {
    if j < |text| && LineChar(text[j]) then Some(Group(j, RunEnd(text, j, LineChar)))
    else if j == lo then None
    else TryLineFrom(text, lo, j - 1)
  }

  /** The line pattern at `i`: greedy `\s*`, then backtracking until `[^\n`]+`
      can take at least one character. It fails only where no match exists
      (`MatchLineComplete`). */
  function MatchLineAt(text: string, i: nat, caption: string): (r: Option<Group>)
    ensures r.Some? ==> PreferredLineMatch(text, i, caption, r.value)
  {
    if !CaptionAt(text, i, caption) then None
    else
      var lo := i + |caption|;
      var k := RunEnd(text, lo, IsSpace);
      var r := TryLineFrom(text, lo, k);
      if r.Some? then
        var g := r.value;
        assert forall h :: LineMatch(text, i, caption, h) ==> h.start <= k && LineChar(text[h.start]) by {
          forall h | LineMatch(text, i, caption, h) ensures h.start <= k && LineChar(text[h.start]) {
            AllSpaceSlice(text, lo, h.start);
          }
        }
        SliceAllSpace(text, lo, g.start);
        assert LineMatch(text, i, caption, g);
        r
      else
        r
  }

  /** Wherever some split of caption, whitespace and line characters exists,
      the line pattern succeeds. */
  lemma MatchLineComplete(text: string, i: nat, caption: string, g: Group)
    requires LineMatch(text, i, caption, g)
    ensures MatchLineAt(text, i, caption).Some?
  {
    var lo := i + |caption|;
    AllSpaceSlice(text, lo, g.start);
    var k := RunEnd(text, lo, IsSpace);
    assert g.start <= k;
    assert LineChar(text[g.start]);
  }

  /** `re.match(p, text[i:])` in the sense of a match that begins exactly at `i`.
      It finds every match there is (`MatchAtComplete`, `MatchLineComplete`). */
  function MatchAt(p: Pattern, text: string, i: nat): (r: Option<Group>)
    ensures r.Some? ==> Matches(p, text, i, r.value)
  {
    match p
    case Ticked(caption, sign) => MatchTickedAt(text, i, caption, sign)
    case Line(caption) => MatchLineAt(text, i, caption)
  }

  /** Whatever match exists at `i`, `MatchAt` returns it: matches are unique. */
  lemma MatchAtComplete(p: Pattern, text: string, i: nat, g: Group)
    requires Matches(p, text, i, g)
    ensures MatchAt(p, text, i) == Some(g)
  {
    match p
    case Ticked(caption, sign) =>
      MatchTickedComplete(text, i, caption, sign, g);
    case Line(caption) =>
      MatchLineComplete(text, i, caption, g);
      var h := MatchLineAt(text, i, caption).value;
      assert LineMatch(text, i, caption, g) && LineMatch(text, i, caption, h);
  }

  /** Every group a match produces lies inside the text and has the pattern's shape. */
  lemma MatchShape(p: Pattern, text: string, i: nat, g: Group)
    requires Matches(p, text, i, g)
    ensures g.start <= g.end <= |text|
    ensures Shaped(p, text[g.start..g.end])
  {
    if p.Line? {
      var t := text[g.start..g.end];
      assert forall k :: 0 <= k < |t| ==> t[k] == text[g.start + k];
    }
  }

  /** `re.search` from position `from`: the first position where the pattern matches. */
  function SearchFrom(p: Pattern, text: string, from: nat): (r: Option<Found>)
    ensures r.Some? ==> from <= r.value.at <= |text| && MatchAt(p, text, r.value.at) == Some(r.value.group)
    ensures r.Some? ==> forall i :: from <= i < r.value.at ==> MatchAt(p, text, i).None?
    ensures r.None? ==> forall i :: from <= i <= |text| ==> MatchAt(p, text, i).None?
    decreases |text| + 1 - from
  {
    if from > |text| then None
    else
      match MatchAt(p, text, from)
      case Some(g) => Some(Found(from, g))
      case None => SearchFrom(p, text, from + 1)
  }

  function Search(p: Pattern, text: string): Option<Found> {
    SearchFrom(p, text, 0)
  }

  /** `m.group(1)` of `re.search(p, text)`, or `None` when it finds nothing. */
  function SearchGroup(p: Pattern, text: string): (r: Option<string>)
    ensures r.Some? ==> Shaped(p, r.value)
  {
    match Search(p, text)
    case None => None
    case Some(f) =>
      MatchShape(p, text, f.at, f.group);
      Some(text[f.group.start..f.group.end])
  }

  /** A match never starts past the end of the text. */
  lemma MatchInside(p: Pattern, text: string, i: nat, g: Group)
    ensures Matches(p, text, i, g) ==> i <= |text|
  {
  }

  /** `re.search` reports the leftmost position where the pattern matches, with
      that position's group. */
  lemma SearchFindsLeftmost(p: Pattern, text: string, i: nat, g: Group)
    requires Matches(p, text, i, g)
    requires forall i': nat, g' :: i' < i ==> !Matches(p, text, i', g')
    ensures Search(p, text) == Some(Found(i, g))
    ensures SearchGroup(p, text) == Some(text[g.start..g.end])
  {
    MatchInside(p, text, i, g);
    MatchAtComplete(p, text, i, g);
    forall i': nat | i' < i
      ensures MatchAt(p, text, i').None?
    {
    }
    SearchFromReaches(p, text, 0, i, g);
  }

  /** The scan from `from` stops at the first position where `MatchAt` succeeds. */
  lemma {:induction false} SearchFromReaches(p: Pattern, text: string, from: nat, i: nat, g: Group)
    requires from <= i <= |text| && MatchAt(p, text, i) == Some(g)
    requires forall i' :: from <= i' < i ==> MatchAt(p, text, i').None?
    ensures SearchFrom(p, text, from) == Some(Found(i, g))
    decreases i - from
  {
    if from < i {
      assert MatchAt(p, text, from).None?;
      assert SearchFrom(p, text, from) == SearchFrom(p, text, from + 1);
      SearchFromReaches(p, text, from + 1, i, g);
    } else {
      assert MatchAt(p, text, from) == Some(g);
    }
  }

  /** `re.search` finds nothing exactly when the pattern matches nowhere. */
  lemma SearchFailsExactly(p: Pattern, text: string)
    ensures SearchGroup(p, text).None? <==> forall i: nat, g :: !Matches(p, text, i, g)
  {
    if SearchGroup(p, text).Some? {
      var f := Search(p, text).value;
      assert Matches(p, text, f.at, f.group);
    } else {
      assert Search(p, text).None?;
      forall i: nat, g ensures !Matches(p, text, i, g) {
        MatchInside(p, text, i, g);
        if Matches(p, text, i, g) {
          MatchAtComplete(p, text, i, g);
        }
      }
    }
  }

  /** A backtick pattern whose caption extends another's at the front matches only
      where the shorter one matches too, with the same group. */
  lemma {:induction false} LongerCaptionMatch(pre: string, caption: string, sign: Sign, text: string, i: nat, g: Group)
    requires TickedMatch(text, i, pre + caption, sign, g)
    ensures TickedMatch(text, i + |pre|, caption, sign, g)
  {
    var full := pre + caption;
    assert text[i..i + |full|][|pre|..] == text[i + |pre|..i + |pre| + |caption|];
    assert full[|pre|..] == caption;
  }

  /** Every match of the emoji-prefixed phone pattern holds a match of the plain
      one two characters on, with the same token. */
  lemma EmojiMatchHoldsPlainMatch(text: string, i: nat, g: Group)
    requires TickedMatch(text, i, "📞 Phone Number:", MaybePlus, g)
    ensures TickedMatch(text, i + 2, "Phone Number:", MaybePlus, g)
  {
    assert "📞 Phone Number:" == "📞 " + "Phone Number:";
    LongerCaptionMatch("📞 ", "Phone Number:", MaybePlus, text, i, g);
  }

  /** A pattern that matches somewhere is found by `re.search`. */
  lemma SearchFindsSome(p: Pattern, text: string, i: nat, g: Group)
    requires Matches(p, text, i, g)
    ensures SearchGroup(p, text).Some?
  {
    SearchFailsExactly(p, text);
  }

  /** The emoji-prefixed phone pattern can only find something where the plain
      one already does. */
  lemma {:induction false} EmojiPhoneNeedsPlainPhone(text: string)
    ensures SearchGroup(EmojiPhoneNumber, text).Some? ==> SearchGroup(PhoneNumber, text).Some?
  {
    if SearchGroup(EmojiPhoneNumber, text).Some? {
      var f := Search(EmojiPhoneNumber, text).value;
      assert Matches(EmojiPhoneNumber, text, f.at, f.group);
      EmojiMatchHoldsPlainMatch(text, f.at, f.group);
      SearchFindsSome(PhoneNumber, text, f.at + 2, f.group);
    }
  }
}
