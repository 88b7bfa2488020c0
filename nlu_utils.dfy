/** Yes/no extraction from a transcribed answer (app/services/nlu_utils.py).
    The text is lowercased and stripped; then the Tamil yes-patterns, the
    Tamil no-patterns, the English yes-words and the English no-words are
    tried in that order, and the first group with a match decides. Tamil
    patterns match anywhere as substrings; English words match only as whole
    words. Lowercasing and word characters are those of ASCII. */
module NluUtils {
  import opened Values

  /** ASCII lowercasing of one character; every other character is kept. */
  function LowerChar(c: char): char {
    if 'A' <= c <= 'Z' then (c as int + 32) as char else c
  }

  function Lower(s: string): (r: string)
    ensures |r| == |s|
    ensures forall i :: 0 <= i < |s| ==> r[i] == LowerChar(s[i])
  {
    seq(|s|, i requires 0 <= i < |s| => LowerChar(s[i]))
  }

  /** The characters Python's `str.strip()` removes. */
  predicate IsSpace(c: char) {
    var n := c as int;
    (9 <= n <= 13) || (28 <= n <= 32) || n == 0x85 || n == 0xA0 || n == 0x1680 ||
    (0x2000 <= n <= 0x200A) || n == 0x2028 || n == 0x2029 || n == 0x202F || n == 0x205F || n == 0x3000
  }

  function StripStart(s: string): (r: string)
    ensures |r| <= |s| && r == s[|s| - |r|..]
    ensures r == [] || !IsSpace(r[0])
    ensures forall i {:trigger IsSpace(s[i])} :: 0 <= i < |s| - |r| ==> IsSpace(s[i])
  {
    if s != [] && IsSpace(s[0]) then StripStart(s[1..]) else s
  }

  function StripEnd(s: string): (r: string)
    ensures |r| <= |s| && r == s[..|r|]
    ensures r == [] || !IsSpace(r[|r| - 1])
    ensures forall i :: |r| <= i < |s| ==> IsSpace(s[i])
  {
    if s != [] && IsSpace(s[|s| - 1]) then StripEnd(s[..|s| - 1]) else s
  }

  /** The text without leading and trailing white space. */
  function Strip(s: string): string {
    StripEnd(StripStart(s))
  }

  /** The normalised answer every pattern is matched against. */
  function Normalize(text: string): string {
    Strip(Lower(text))
  }

  /** `p` occurs in `t` starting at position `i`. */
  predicate OccursAt(t: string, p: string, i: int) {
    0 <= i && i + |p| <= |t| && t[i..i + |p|] == p
  }

  /** `p` occurs somewhere in `t`. */
  ghost predicate Occurs(t: string, p: string) {
    exists i :: OccursAt(t, p, i)
  }

  /** Substring search, scanning from the front. */
  function Contains(t: string, p: string): (r: bool)
    ensures r <==> Occurs(t, p)
  {
    if |p| > |t| then false
    else if t[..|p|] == p then
      assert OccursAt(t, p, 0);
      true
    else
      var r := Contains(t[1..], p);
      assert (exists i :: OccursAt(t[1..], p, i)) <==> (exists i :: OccursAt(t, p, i)) by {
        forall i | OccursAt(t[1..], p, i) ensures OccursAt(t, p, i + 1) {
          assert t[1..][i..i + |p|] == t[i + 1..i + 1 + |p|];
        }
        forall i | OccursAt(t, p, i) ensures OccursAt(t[1..], p, i - 1) {
          assert t[1..][i - 1..i - 1 + |p|] == t[i..i + |p|];
        }
      }
      r
  }

  /** Some pattern of the list occurs in `t`: the loop over a pattern list
      that returns at the first hit. */
  function AnyContained(t: string, patterns: seq<string>): (r: bool)
    ensures r <==> exists k :: 0 <= k < |patterns| && Contains(t, patterns[k])
  {
    if patterns == [] then false
    else if Contains(t, patterns[0]) then true
    else
      var r := AnyContained(t, patterns[1..]);
      assert forall k :: 1 <= k < |patterns| ==> patterns[k] == patterns[1..][k - 1];
      r
  }

  /** A regular-expression word character, over ASCII. */
  predicate IsWordChar(c: char) {
    ('a' <= c <= 'z') || ('A' <= c <= 'Z') || ('0' <= c <= '9') || c == '_'
  }

  /** `w` occurs at `i` with a word boundary on both sides (`\b w \b` for a
      word made of word characters). */
  predicate WholeWordAt(t: string, w: string, i: int) {
    OccursAt(t, w, i) &&
    (i == 0 || !IsWordChar(t[i - 1])) &&
    (i + |w| == |t| || !IsWordChar(t[i + |w|]))
  }

  /** `w` occurs somewhere in `t` as a whole word. */
  ghost predicate OccursAsWord(t: string, w: string) {
    exists i :: WholeWordAt(t, w, i)
  }

  /** Whole-word search from position `i` on. */
  function FindWordFrom(t: string, w: string, i: nat): (r: bool)
    ensures r <==> exists j :: i <= j && WholeWordAt(t, w, j)
    decreases |t| - i
  {
    if i + |w| > |t| then false
    else if WholeWordAt(t, w, i) then true
    else
      var r := FindWordFrom(t, w, i + 1);
      assert forall j :: i <= j && WholeWordAt(t, w, j) ==> j == i || i + 1 <= j;
      r
  }

  /** The regular expression `\b(w1|w2|...)\b`: some word of the list occurs
      as a whole word. */
  function AnyWord(t: string, words: seq<string>): (r: bool)
    ensures r <==> exists k :: 0 <= k < |words| && OccursAsWord(t, words[k])
  {
    if words == [] then false
    else if FindWordFrom(t, words[0], 0) then true
    else
      var r := AnyWord(t, words[1..]);
      assert forall k :: 1 <= k < |words| ==> words[k] == words[1..][k - 1];
      r
  }

  const YesPatterns: seq<string> :=
    ["ஆம்", "அம்", "உண்டு", "இருக்கிறது", "இருக்கும்", "வேண்டும்", "சரி", "ஆகும்", "உள்ளது", "உள்ள"]

  const NoPatterns: seq<string> := ["இல்லை", "இல்லாது", "இல்ல", "வேண்டாம்", "சரியில்லை"]

  const EnglishYesWords: seq<string> := ["yes", "yeah", "yep", "y", "ok", "okay", "sure"]

  const EnglishNoWords: seq<string> := ["no", "nope", "nah", "n"]

  /** What each group of patterns means, stated position-wise. */
  ghost predicate TamilYes(t: string) {
    exists k :: 0 <= k < |YesPatterns| && Occurs(t, YesPatterns[k])
  }

  ghost predicate TamilNo(t: string) {
    exists k :: 0 <= k < |NoPatterns| && Occurs(t, NoPatterns[k])
  }

  ghost predicate EnglishYes(t: string) {
    exists k :: 0 <= k < |EnglishYesWords| && OccursAsWord(t, EnglishYesWords[k])
  }

  ghost predicate EnglishNo(t: string) {
    exists k :: 0 <= k < |EnglishNoWords| && OccursAsWord(t, EnglishNoWords[k])
  }

  /** "yes", "no", or None when the answer is unclear. */
  function ExtractYesNoFromTamil(text: string): (r: Option<string>)
    // a Tamil yes wins over everything, a Tamil no included
    ensures TamilYes(Normalize(text)) ==> r == Some("yes")
    // a Tamil no is returned only when no Tamil yes matched
    ensures r == Some("no") && TamilNo(Normalize(text)) ==> !TamilYes(Normalize(text))
    // English is consulted only when no Tamil pattern matched, yes before no
    ensures (!TamilYes(Normalize(text)) && !TamilNo(Normalize(text))) ==>
      r == (if EnglishYes(Normalize(text)) then Some("yes")
            else if EnglishNo(Normalize(text)) then Some("no") else None)
    ensures r == Some("yes") <==>
      TamilYes(Normalize(text)) || (!TamilNo(Normalize(text)) && EnglishYes(Normalize(text)))
    ensures r == Some("no") <==>
      !TamilYes(Normalize(text)) &&
      (TamilNo(Normalize(text)) || (!EnglishYes(Normalize(text)) && EnglishNo(Normalize(text))))
    ensures r == None <==>
      !TamilYes(Normalize(text)) && !TamilNo(Normalize(text)) &&
      !EnglishYes(Normalize(text)) && !EnglishNo(Normalize(text))
  {
    var t := Normalize(text);
    if AnyContained(t, YesPatterns) then Some("yes")
    else if AnyContained(t, NoPatterns) then Some("no")
    else if AnyWord(t, EnglishYesWords) then Some("yes")
    else if AnyWord(t, EnglishNoWords) then Some("no")
    else None
  }

  /** "சரியில்லை" ("not right") contains the yes-pattern "சரி", so an answer
      containing it reads as yes: that no-pattern never decides by itself. */
  lemma SariyillaiReadsAsYes(text: string)
    requires Contains(Normalize(text), "சரியில்லை")
    ensures ExtractYesNoFromTamil(text) == Some("yes")
  {
    var t := Normalize(text);
    var i :| OccursAt(t, "சரியில்லை", i);
    SariIsPrefix("சரி", "சரியில்லை");
    PrefixOccurs(t, "சரி", "சரியில்லை", i);
    assert OccursAt(t, YesPatterns[6], i);
  }

  lemma SariIsPrefix(p: string, q: string)
    requires p == "சரி" && q == "சரியில்லை"
    ensures |p| <= |q| && q[..|p|] == p
  {
  }

  /** A prefix of an occurring string occurs at the same place. */
  lemma PrefixOccurs(t: string, p: string, q: string, i: int)
    requires OccursAt(t, q, i) && |p| <= |q| && q[..|p|] == p
    ensures OccursAt(t, p, i)
  {
    assert t[i..i + |p|] == q[..|p|];
  }

  lemma OccursAfterSpaces(s: string, d: nat, p: string, i: int)
    requires d <= |s| && forall j :: 0 <= j < d ==> IsSpace(s[j])
    requires p != [] && !IsSpace(p[0])
    ensures OccursAt(s, p, i) <==> OccursAt(s[d..], p, i - d)
  {
    if OccursAt(s, p, i) {
      assert s[i] == p[0];
      assert s[d..][i - d..i - d + |p|] == s[i..i + |p|];
    }
    if OccursAt(s[d..], p, i - d) {
      assert s[d..][i - d..i - d + |p|] == s[i..i + |p|];
    }
  }

  lemma {:induction false} OccursAfterStripEnd(s: string, p: string, i: int)
    requires p != [] && !IsSpace(p[|p| - 1])
    ensures OccursAt(s, p, i) <==> OccursAt(StripEnd(s), p, i)
  {
    if OccursAt(s, p, i) {
      assert s[i + |p| - 1] == p[|p| - 1];
      assert StripEnd(s)[i..i + |p|] == s[i..i + |p|];
    }
    if OccursAt(StripEnd(s), p, i) {
      assert StripEnd(s)[i..i + |p|] == s[i..i + |p|];
    }
  }

  lemma {:induction false} OccursIffStripStart(s: string, p: string)
    requires p != [] && !IsSpace(p[0])
    ensures Occurs(s, p) <==> Occurs(StripStart(s), p)
  {
    var r := StripStart(s);
    var d := |s| - |r|;
    assert r == s[d..];
    OccursIffSpaces(s, d, p);
  }

  /** Leading white space never takes part in a match of such a pattern. */
  lemma OccursIffSpaces(s: string, d: nat, p: string)
    requires d <= |s| && forall j :: 0 <= j < d ==> IsSpace(s[j])
    requires p != [] && !IsSpace(p[0])
    ensures Occurs(s, p) <==> Occurs(s[d..], p)
  {
    if Occurs(s, p) {
      var i :| OccursAt(s, p, i);
      OccursAfterSpaces(s, d, p, i);
    }
    if Occurs(s[d..], p) {
      var i :| OccursAt(s[d..], p, i);
      OccursAfterSpaces(s, d, p, i + d);
    }
  }

  lemma {:induction false} OccursIffStripEnd(s: string, p: string)
    requires p != [] && !IsSpace(p[|p| - 1])
    ensures Occurs(s, p) <==> Occurs(StripEnd(s), p)
  {
    if Occurs(s, p) {
      var i :| OccursAt(s, p, i);
      OccursAfterStripEnd(s, p, i);
    }
    if Occurs(StripEnd(s), p) {
      var i :| OccursAt(StripEnd(s), p, i);
      OccursAfterStripEnd(s, p, i);
    }
  }

  /** Substring matches of such patterns are the same before and after
      stripping. */
  lemma {:induction false} OccursAfterStrip(s: string, p: string)
    requires p != [] && !IsSpace(p[0]) && !IsSpace(p[|p| - 1])
    ensures Occurs(s, p) <==> Occurs(Strip(s), p)
  {
    OccursIffStripStart(s, p);
    OccursIffStripEnd(StripStart(s), p);
  }

  /** Word characters are never white space. */
  predicate Wordy(w: string) {
    w != [] && forall k :: 0 <= k < |w| ==> IsWordChar(w[k])
  }

  lemma WholeWordAfterSpaces(s: string, d: nat, w: string, i: int)
    requires d <= |s| && forall j :: 0 <= j < d ==> IsSpace(s[j])
    requires Wordy(w)
    ensures WholeWordAt(s, w, i) <==> WholeWordAt(s[d..], w, i - d)
  {
    var t := s[d..];
    OccursAfterSpaces(s, d, w, i);
    if WholeWordAt(s, w, i) {
      if i - d > 0 {
        assert t[i - d - 1] == s[i - 1];
      }
      if i - d + |w| < |t| {
        assert t[i - d + |w|] == s[i + |w|];
      }
    }
    if WholeWordAt(t, w, i - d) {
      if i > 0 {
        assert i - d > 0 ==> t[i - d - 1] == s[i - 1];
        assert i - d == 0 ==> IsSpace(s[i - 1]);
      }
      if i + |w| < |s| {
        assert t[i - d + |w|] == s[i + |w|];
      }
    }
  }

  lemma {:induction false} WholeWordAfterStripEnd(s: string, w: string, i: int)
    requires Wordy(w)
    ensures WholeWordAt(s, w, i) <==> WholeWordAt(StripEnd(s), w, i)
  {
    var t := StripEnd(s);
    if WholeWordAt(s, w, i) {
      assert s[i + |w| - 1] == w[|w| - 1];
      OccursAfterStripEnd(s, w, i);
      if i > 0 {
        assert t[i - 1] == s[i - 1];
      }
      if i + |w| < |t| {
        assert t[i + |w|] == s[i + |w|];
      }
    }
    if WholeWordAt(t, w, i) {
      OccursAfterStripEnd(s, w, i);
      if i > 0 {
        assert t[i - 1] == s[i - 1];
      }
      if i + |w| < |s| {
        assert i + |w| < |t| ==> t[i + |w|] == s[i + |w|];
        assert i + |w| == |t| ==> IsSpace(s[i + |w|]);
      }
    }
  }

  /** Whole-word matches are the same before and after stripping. */
  lemma {:induction false} WholeWordAfterStrip(s: string, w: string)
    requires Wordy(w)
    ensures OccursAsWord(s, w) <==> OccursAsWord(Strip(s), w)
  {
    SomeWholeWordAfterStripStart(s, w);
    SomeWholeWordAfterStripEnd(StripStart(s), w);
  }

  lemma {:induction false} SomeWholeWordAfterStripStart(s: string, w: string)
    requires Wordy(w)
    ensures OccursAsWord(s, w) <==> OccursAsWord(StripStart(s), w)
  {
    var r := StripStart(s);
    var d := |s| - |r|;
    assert r == s[d..];
    SomeWholeWordAfterSpaces(s, d, w);
  }

  /** Leading white space never takes part in a whole-word match. */
  lemma SomeWholeWordAfterSpaces(s: string, d: nat, w: string)
    requires d <= |s| && forall j :: 0 <= j < d ==> IsSpace(s[j])
    requires Wordy(w)
    ensures OccursAsWord(s, w) <==> OccursAsWord(s[d..], w)
  {
    if OccursAsWord(s, w) {
      var i :| WholeWordAt(s, w, i);
      WholeWordAfterSpaces(s, d, w, i);
    }
    if OccursAsWord(s[d..], w) {
      var i :| WholeWordAt(s[d..], w, i);
      WholeWordAfterSpaces(s, d, w, i + d);
    }
  }

  lemma {:induction false} SomeWholeWordAfterStripEnd(s: string, w: string)
    requires Wordy(w)
    ensures OccursAsWord(s, w) <==> OccursAsWord(StripEnd(s), w)
  {
    if OccursAsWord(s, w) {
      var i :| WholeWordAt(s, w, i);
      WholeWordAfterStripEnd(s, w, i);
    }
    if OccursAsWord(StripEnd(s), w) {
      var i :| WholeWordAt(StripEnd(s), w, i);
      WholeWordAfterStripEnd(s, w, i);
    }
  }

  /** Stripping never changes the answer: every pattern and word starts and
      ends with a non-space character, and white space is never a word
      character, so the same groups match in the lowered text. */
  lemma {:induction false} StrippingChangesNoAnswer(s: string)
    ensures TamilYes(Strip(s)) == TamilYes(s)
    ensures TamilNo(Strip(s)) == TamilNo(s)
    ensures EnglishYes(Strip(s)) == EnglishYes(s)
    ensures EnglishNo(Strip(s)) == EnglishNo(s)
  {
    forall k | 0 <= k < |YesPatterns| {
      OccursAfterStrip(s, YesPatterns[k]);
    }
    forall k | 0 <= k < |NoPatterns| {
      OccursAfterStrip(s, NoPatterns[k]);
    }
    forall k | 0 <= k < |EnglishYesWords| {
      WholeWordAfterStrip(s, EnglishYesWords[k]);
    }
    forall k | 0 <= k < |EnglishNoWords| {
      WholeWordAfterStrip(s, EnglishNoWords[k]);
    }
  }

  predicate IsAscii(t: string) {
    forall i :: 0 <= i < |t| ==> t[i] as int < 128
  }

  /** No Tamil pattern occurs in ASCII text, since every pattern starts
      with a Tamil letter. */
  lemma NoTamilInAscii(t: string, patterns: seq<string>)
    requires IsAscii(t)
    requires forall k :: 0 <= k < |patterns| ==> patterns[k] != [] && patterns[k][0] as int >= 128
    ensures forall k :: 0 <= k < |patterns| ==> !Occurs(t, patterns[k])
  {
  }

  lemma {:induction false} NormalizeKeepsAscii(text: string)
    requires IsAscii(text)
    ensures IsAscii(Normalize(text))
  {
    var l := Lower(text);
    assert IsAscii(l);
    StripKeepsAscii(l);
  }

  lemma {:induction false} StripKeepsAscii(s: string)
    requires IsAscii(s)
    ensures IsAscii(Strip(s))
  {
    var t := StripStart(s);
    var d := |s| - |t|;
    assert t == s[d..];
    AsciiSlice(s, d, |s|);
    var u := StripEnd(t);
    assert u == t[..|u|];
    AsciiSlice(t, 0, |u|);
  }

  lemma AsciiSlice(s: string, a: nat, b: nat)
    requires a <= b <= |s| && IsAscii(s)
    ensures IsAscii(s[a..b])
  {
    assert forall i :: 0 <= i < b - a ==> s[a..b][i] == s[a + i];
  }

  /** An answer in ASCII is decided by the English words alone. */
  lemma AsciiAnswerIsEnglish(text: string)
    requires IsAscii(text)
    ensures ExtractYesNoFromTamil(text) ==
      if EnglishYes(Normalize(text)) then Some("yes")
      else if EnglishNo(Normalize(text)) then Some("no")
      else None
  {
    NoTamilAnswerInAscii(text);
  }

  lemma NoTamilAnswerInAscii(text: string)
    requires IsAscii(text)
    ensures !TamilYes(Normalize(text)) && !TamilNo(Normalize(text))
  {
    NormalizeKeepsAscii(text);
    NoTamilAnswerIn(Normalize(text));
  }

  lemma NoTamilAnswerIn(t: string)
    requires IsAscii(t)
    ensures !TamilYes(t) && !TamilNo(t)
  {
    YesPatternsAreTamil();
    NoPatternsAreTamil();
    NoTamilInAscii(t, YesPatterns);
    NoTamilInAscii(t, NoPatterns);
  }

  lemma YesPatternsAreTamil()
    ensures forall k :: 0 <= k < |YesPatterns| ==> YesPatterns[k] != [] && YesPatterns[k][0] as int >= 128
  {
  }

  lemma NoPatternsAreTamil()
    ensures forall k :: 0 <= k < |NoPatterns| ==> NoPatterns[k] != [] && NoPatterns[k][0] as int >= 128
  {
  }

  /** A word with a character the text lacks does not occur in it. */
  lemma AbsentCharRulesOut(t: string, w: string, c: char)
    requires c in w && c !in t
    ensures !OccursAsWord(t, w)
  {
  }

  /** Case and surrounding white space do not matter. */
  lemma ShoutedYesIsYes(text: string)
    requires text == "  YES "
    ensures ExtractYesNoFromTamil(text) == Some("yes")
  {
    assert IsAscii(text);
    ShoutedYesNormalizes(text);
    AsciiAnswerIsEnglish(text);
    assert WholeWordAt(Normalize(text), EnglishYesWords[0], 0);
  }

  lemma ShoutedYesNormalizes(text: string)
    requires text == "  YES "
    ensures Normalize(text) == "yes"
  {
    assert Lower(text) == "  yes ";
    PaddedYesStrips(Lower(text));
  }

  lemma PaddedYesStrips(s: string)
    requires s == "  yes "
    ensures Strip(s) == "yes"
  {
    assert IsSpace(s[0]) && IsSpace(s[1]) && !IsSpace(s[2]);
    assert StripStart(s) == StripStart(s[1..]) == StripStart(s[2..]) == s[2..];
    var u := s[2..];
    assert IsSpace(u[3]) && !IsSpace(u[2]);
    assert StripEnd(u) == StripEnd(u[..3]) == u[..3];
  }

  /** English words count only when whole: "nothing" starts with "no" and
      with "n" but is neither. */
  lemma NothingIsUnclear(t: string)
    requires t == "nothing"
    ensures ExtractYesNoFromTamil(t) == None
  {
    assert IsAscii(t);
    NothingNormalizes(t);
    AsciiAnswerIsEnglish(t);
    NoEnglishWordInNothing(t);
  }

  lemma NothingNormalizes(t: string)
    requires t == "nothing"
    ensures Normalize(t) == t
  {
    assert Lower(t) == t;
    assert !IsSpace(t[0]) && !IsSpace(t[|t| - 1]);
  }

  lemma NoEnglishWordInNothing(t: string)
    requires t == "nothing"
    ensures !EnglishYes(t) && !EnglishNo(t)
  {
    AbsentCharRulesOut(t, "yes", 'y');
    AbsentCharRulesOut(t, "yeah", 'y');
    AbsentCharRulesOut(t, "yep", 'y');
    AbsentCharRulesOut(t, "y", 'y');
    AbsentCharRulesOut(t, "ok", 'k');
    AbsentCharRulesOut(t, "okay", 'k');
    AbsentCharRulesOut(t, "sure", 's');
    AbsentCharRulesOut(t, "nope", 'p');
    AbsentCharRulesOut(t, "nah", 'a');
  }
}
