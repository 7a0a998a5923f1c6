/** The optional value used wherever the program works with `None`. */
module Optional {

  datatype Option<+T> = None | Some(value: T)
}

/**
 Character classes and the few string operations of Python that the bot-reply
 parser relies on: the regex classes `\d` and `\s`, `str.isdigit`, `str.strip`,
 `str.split(c)[0]` and the substring test `in`.
 */
module Text {

  /** `\d` and `str.isdigit`, restricted to the ASCII digits. */
  predicate IsDigit(c: char) {
    '0' <= c <= '9'
  }

  /** `\s` and the characters `str.strip()` removes: the 29 code points for
      which Python 3's `str.isspace` holds. */
  predicate IsSpace(c: char) {
    || c == ' '
    || '\t' <= c <= '\r'
    || '\U{1C}' <= c <= '\U{1F}'
    || c == '\U{85}'
    || c == '\U{A0}'
    || c == '\U{1680}'
    || '\U{2000}' <= c <= '\U{200A}'
    || c == '\U{2028}'
    || c == '\U{2029}'
    || c == '\U{202F}'
    || c == '\U{205F}'
    || c == '\U{3000}'
  }

  ghost predicate AllSpace(s: string) {
    forall k :: 0 <= k < |s| ==> IsSpace(s[k])
  }

  /** `AllSpace` of a slice, read at the positions of the whole string. */
  lemma AllSpaceSlice(s: string, lo: nat, hi: nat)
    requires lo <= hi <= |s| && AllSpace(s[lo..hi])
    ensures forall x :: lo <= x < hi ==> IsSpace(s[x])
  {
    assert forall x :: lo <= x < hi ==> s[lo..hi][x - lo] == s[x];
  }

  /** A run of whitespace positions makes an all-whitespace slice. */
  lemma SliceAllSpace(s: string, lo: nat, hi: nat)
    requires lo <= hi <= |s|
    requires forall x :: lo <= x < hi ==> IsSpace(s[x])
    ensures AllSpace(s[lo..hi])
  {
    assert forall x :: 0 <= x < hi - lo ==> s[lo..hi][x] == s[lo + x];
  }

  ghost predicate AllDigits(s: string) {
    forall k :: 0 <= k < |s| ==> IsDigit(s[k])
  }

  /** `str.isdigit` (on ASCII), scanning from the left: at least one character,
      and each one a digit. */
  predicate IsDecimal(s: string)
    ensures IsDecimal(s) <==> |s| > 0 && AllDigits(s)
    decreases |s|
  {
    |s| > 0 && IsDigit(s[0]) && (|s| == 1 || IsDecimal(s[1..]))
  }

  /** The end of the longest run of characters satisfying `keep` that starts at `i`. */
  function RunEnd(s: string, i: nat, keep: char -> bool): (r: nat)
    requires i <= |s|
    ensures i <= r <= |s|
    ensures forall k :: i <= k < r ==> keep(s[k])
    ensures r == |s| || !keep(s[r])
    decreases |s| - i
  {
    if i == |s| || !keep(s[i]) then i else RunEnd(s, i + 1, keep)
  }

  /** A string with no whitespace at either end, as `str.strip()` leaves it. */
  predicate Stripped(s: string) {
    |s| == 0 || (!IsSpace(s[0]) && !IsSpace(s[|s| - 1]))
  }

  /** `str.lstrip()`: drop leading whitespace. The result is a suffix of `s`
      (`LStripSuffix`). */
  function LStrip(s: string): (r: string)
    ensures |r| <= |s|
    ensures AllSpace(s[..|s| - |r|])
    ensures |r| == 0 || !IsSpace(r[0])
  {
    if |s| > 0 && IsSpace(s[0]) then LStrip(s[1..]) else s
  }

  /** What `lstrip` keeps is exactly the tail of its input. */
  lemma {:induction false} LStripSuffix(s: string)
    ensures LStrip(s) == s[|s| - |LStrip(s)|..]
    decreases |s|
  {
    if |s| > 0 && IsSpace(s[0]) {
      LStripSuffix(s[1..]);
    }
  }

  /** `str.rstrip()`: drop trailing whitespace. */
  function RStrip(s: string): (r: string)
    ensures r <= s
    ensures AllSpace(s[|r|..])
    ensures |r| == 0 || !IsSpace(r[|r| - 1])
  {
    if |s| > 0 && IsSpace(s[|s| - 1]) then RStrip(s[..|s| - 1]) else s
  }

  /** `str.strip()`: drop leading and trailing whitespace. */
  function Strip(s: string): (r: string)
    ensures Stripped(r)
  {
    RStrip(LStrip(s))
  }

  /** `s.split(c)[0]`: the part of `s` before the first `c`, or all of `s`
      when `c` does not occur. */
  function Before(s: string, c: char): (r: string)
    ensures r <= s
    ensures forall k :: 0 <= k < |r| ==> r[k] != c
    ensures |r| < |s| ==> s[|r|] == c
  {
    if |s| == 0 || s[0] == c then [] else [s[0]] + Before(s[1..], c)
  }

  /** Every character of `s` satisfies `P`. */
  ghost predicate All(s: string, P: char -> bool) {
    forall k :: 0 <= k < |s| ==> P(s[k])
  }

  ghost predicate OccursAt(s: string, sub: string, i: int) {
    0 <= i && i + |sub| <= |s| && s[i..i + |sub|] == sub
  }

  /** The substring test `sub in s`. */
  function Contains(s: string, sub: string): (r: bool)
    ensures r <==> exists i :: OccursAt(s, sub, i)
    decreases |s|
  {
    if |sub| > |s| then
      assert forall i :: !OccursAt(s, sub, i);
      false
    else if s[..|sub|] == sub then
      assert OccursAt(s, sub, 0);
      true
    else
      var r := Contains(s[1..], sub);
      assert forall i :: OccursAt(s[1..], sub, i) <==> OccursAt(s, sub, i + 1) by {
        forall i ensures OccursAt(s[1..], sub, i) <==> OccursAt(s, sub, i + 1) {
          if 0 <= i && i + |sub| <= |s| - 1 {
            assert s[1..][i..i + |sub|] == s[i + 1..i + 1 + |sub|];
          }
        }
      }
      assert !OccursAt(s, sub, 0);
      assert (exists i :: OccursAt(s, sub, i)) ==> exists i :: OccursAt(s[1..], sub, i) by {
        if exists i :: OccursAt(s, sub, i) {
          var i :| OccursAt(s, sub, i);
          assert i != 0;
          assert OccursAt(s[1..], sub, i - 1);
        }
      }
      r
  }

  /** Whitespace in front of a string that does not start with whitespace is
      exactly what `lstrip` removes. */
  lemma {:induction false} LStripExact(pre: string, x: string)
    requires AllSpace(pre)
    requires |x| == 0 || !IsSpace(x[0])
    ensures LStrip(pre + x) == x
    decreases |pre|
  {
    if |pre| > 0 {
      assert (pre + x)[1..] == pre[1..] + x;
      LStripExact(pre[1..], x);
    } else {
      assert pre + x == x;
    }
  }

  /** Trailing whitespace never survives `rstrip`. */
  lemma {:induction false} RStripTrailingSpace(x: string, post: string)
    requires AllSpace(post)
    ensures RStrip(x + post) == RStrip(x)
    decreases |post|
  {
    if |post| > 0 {
      var n := |post| - 1;
      assert (x + post)[..|x + post| - 1] == x + post[..n];
      RStripTrailingSpace(x, post[..n]);
    } else {
      assert x + post == x;
    }
  }

  /** `rstrip` of a string with one more character in front depends only on
      that character and `rstrip` of the rest. */
  lemma {:induction false} RStripCons(c: char, x: string)
    ensures RStrip([c] + x) == if |RStrip(x)| == 0 && IsSpace(c) then [] else [c] + RStrip(x)
    decreases |x|
  {
    if |x| == 0 {
      assert [c] + x == [c];
    } else if IsSpace(x[|x| - 1]) {
      assert ([c] + x)[..|x|] == [c] + x[..|x| - 1];
      RStripCons(c, x[..|x| - 1]);
    }
  }

  /** Stripping is determined by the split into whitespace, a stripped core
      and whitespace: whatever surrounds `core`, `Strip` recovers `core`. */
  lemma {:induction false} StripUnique(pre: string, core: string, post: string)
    requires AllSpace(pre) && AllSpace(post) && Stripped(core)
    ensures Strip(pre + core + post) == core
  {
    if |core| == 0 {
      AllSpaceConcat(pre, post);
      assert pre + core + post == (pre + post) + [];
      LStripExact(pre + post, []);
    } else {
      assert pre + core + post == pre + (core + post);
      LStripExact(pre, core + post);
      RStripTrailingSpace(core, post);
    }
  }

  lemma AllSpaceConcat(x: string, y: string)
    requires AllSpace(x) && AllSpace(y)
    ensures AllSpace(x + y)
  {
    assert forall k :: |x| <= k < |x + y| ==> (x + y)[k] == y[k - |x|];
  }

  /** Stripping a string that is already stripped changes nothing. */
  lemma StrippedFixed(s: string)
    requires Stripped(s)
    ensures Strip(s) == s
  {
    StripUnique([], s, []);
    assert [] + s + [] == s;
  }

  /** `Strip` keeps only characters of its input, so it keeps any property all
      of them have. */
  lemma StripKeeps(s: string, P: char -> bool)
    ensures All(s, P) ==> All(Strip(s), P)
  {
    if All(s, P) {
      var l := LStrip(s);
      LStripSuffix(s);
      var n := |s| - |l|;
      assert forall k :: 0 <= k < |l| ==> l[k] == s[n + k];
      assert All(l, P);
      var r := RStrip(l);
      assert forall k :: 0 <= k < |r| ==> r[k] == l[k];
    }
  }

  /** `Before` keeps only characters of its input. */
  lemma BeforeKeeps(s: string, c: char, P: char -> bool)
    requires All(s, P)
    ensures All(Before(s, c), P)
  {
  }
}
