/**
 * The trailing time token of `/add`: `re.search(r'(\d{1,2}:\d{2})$', text)`,
 * then `text.replace(token, '').strip()` (bot.py, add_command).
 */
module TimeToken {
  import opened Options
  import opened Text

  /** The whole of `t` matches `\d{1,2}:\d{2}`. */
  predicate IsTimeToken(t: string) {
    (|t| == 4 && IsDigit(t[0]) && t[1] == ':' && IsDigit(t[2]) && IsDigit(t[3]))
    || (|t| == 5 && IsDigit(t[0]) && IsDigit(t[1]) && t[2] == ':' && IsDigit(t[3]) && IsDigit(t[4]))
  }

  /** Positions where `$` (without MULTILINE) matches: the end of the string, or
      just before a newline that ends it. */
  predicate AtEnd(s: string, q: int) {
    q == |s| || (0 <= q == |s| - 1 && s[q] == '\n')
  }

  /** The pattern matches `s[p..q]`. */
  predicate MatchAt(s: string, p: int, q: int) {
    0 <= p <= q <= |s| && IsTimeToken(s[p..q]) && AtEnd(s, q)
  }

  datatype Span = Span(start: nat, end: nat)

  /** `re.search`: the match with the leftmost start (which then has only one
      possible end), or `None` when the pattern matches nowhere. */
  function Search(s: string): (m: Option<Span>)
    ensures m.Some? ==> MatchAt(s, m.value.start, m.value.end)
    ensures m.Some? ==> forall p, q :: MatchAt(s, p, q) ==>
                          m.value.start < p || (m.value.start == p && m.value.end == q)
    ensures m.None? <==> forall p, q :: !MatchAt(s, p, q)
  {
    var e := if s != [] && s[|s| - 1] == '\n' then |s| - 1 else |s|;
    MatchesEndAt(s, e);
    if e >= 5 && IsTimeToken(s[e - 5..e]) then
      assert MatchAt(s, e - 5, e);
      Some(Span(e - 5, e))
    else if e >= 4 && IsTimeToken(s[e - 4..e]) then
      assert MatchAt(s, e - 4, e);
      Some(Span(e - 4, e))
    else None
  }

  /** Every match ends at `e`, the last position `$` can match at, and starts
      four or five characters before it. */
  lemma MatchesEndAt(s: string, e: int)
    requires e == if s != [] && s[|s| - 1] == '\n' then |s| - 1 else |s|
    ensures forall p, q :: MatchAt(s, p, q) ==> q == e && (p == e - 5 || p == e - 4)
  {
    forall p, q | MatchAt(s, p, q) ensures q == e && (p == e - 5 || p == e - 4) {
      var t := s[p..q];
      assert t[|t| - 1] == s[q - 1] && IsDigit(t[|t| - 1]);
    }
  }

  /** What `/add` stores: a task's text and the optional reminder. */
  datatype Extracted = Extracted(text: string, reminder: Option<string>)

  /** The time-token step of `add_command`. Without a match the argument is kept
      verbatim (not even stripped); with one, the token becomes the reminder and
      every occurrence of it is removed from the text before stripping. */
  function ExtractTime(arg: string): (x: Extracted)
    ensures x.reminder.None? <==> forall p, q :: !MatchAt(arg, p, q)
    ensures x.reminder.None? ==> x.text == arg
    ensures x.reminder.Some? ==>
              IsTimeToken(x.reminder.value)
              && (exists p, q :: MatchAt(arg, p, q) && arg[p..q] == x.reminder.value)
              && |x.text| + |x.reminder.value| <= |arg|
              && (x.text == [] || (!IsSpace(x.text[0]) && !IsSpace(x.text[|x.text| - 1])))
  {
    match Search(arg)
    case None => Extracted(arg, None)
    case Some(m) =>
      var token := arg[m.start..m.end];
      TokenRemoved(arg, m.start, m.end);
      Extracted(Strip(RemoveAll(arg, token)), Some(token))
  }

  /** What the match case of `ExtractTime` stores: a time token, and a stripped
      text shorter than the argument by at least the token's length. */
  lemma TokenRemoved(arg: string, p: nat, q: nat)
    requires MatchAt(arg, p, q)
    ensures var tok := arg[p..q];
            var text := Strip(RemoveAll(arg, tok));
            tok != [] && IsTimeToken(tok) && |text| + |tok| <= |arg|
            && (text == [] || (!IsSpace(text[0]) && !IsSpace(text[|text| - 1])))
  {
    var tok := arg[p..q];
    assert OccursAt(arg, tok, p);
    var r := RemoveAll(arg, tok);
    var i :| StrippedAt(r, Strip(r), i);
  }

  /** `ExtractTime` on a text where `re.search` finds `arg[p..q]`. */
  lemma ExtractTimeOfMatch(arg: string, p: nat, q: nat, tok: string)
    requires Search(arg) == Some(Span(p, q))
    requires q <= |arg| && tok == arg[p..q]
    ensures ExtractTime(arg) == Extracted(Strip(RemoveAll(arg, tok)), Some(tok))
  {
  }

  /** Removing a token that occurs only at the very end of `a + tok` leaves `a`. */
  lemma {:induction false} RemoveOnlyOccurrence(a: string, tok: string)
    requires tok != []
    requires forall i :: OccursAt(a + tok, tok, i) ==> i == |a|
    ensures RemoveAll(a + tok, tok) == a
    decreases |a|
  {
    var s := a + tok;
    if a == [] {
      assert s[..|tok|] == tok && s[|tok|..] == [];
    } else {
      assert !OccursAt(s, tok, 0);
      assert s[0..|tok|] == s[..|tok|];
      assert s[1..] == a[1..] + tok;
      forall i | OccursAt(a[1..] + tok, tok, i) ensures i == |a[1..]| {
        assert s[i + 1..i + 1 + |tok|] == (a[1..] + tok)[i..i + |tok|];
        assert OccursAt(s, tok, i + 1);
      }
      RemoveOnlyOccurrence(a[1..], tok);
    }
  }

  /** A text `body + tok` that ends with a time token occurring nowhere else stores
      `tok` as the reminder and the stripped `body` as its text, provided
      the token is the longest the text ends with. */
  lemma ExtractSingleToken(body: string, tok: string)
    requires IsTimeToken(tok)
    requires |tok| == 4 ==> body == [] || !IsDigit(body[|body| - 1])
    requires forall i :: OccursAt(body + tok, tok, i) ==> i == |body|
    ensures ExtractTime(body + tok) == Extracted(Strip(body), Some(tok))
  {
    ExtractSuffix(body, tok);
    RemoveOnlyOccurrence(body, tok);
  }

  /** A text ending with a time token (the longest it ends with) extracts that
      token, removing its occurrences from the text. */
  lemma ExtractSuffix(body: string, tok: string)
    requires IsTimeToken(tok)
    requires |tok| == 4 ==> body == [] || !IsDigit(body[|body| - 1])
    ensures ExtractTime(body + tok) == Extracted(Strip(RemoveAll(body + tok, tok)), Some(tok))
  {
    var s := body + tok;
    SearchFindsSuffix(body, tok);
    SuffixSlice(body, tok, s);
    ExtractTimeOfMatch(s, |body|, |s|, tok);
  }

  /** The last `|b|` elements of `a + b` are `b`; stated apart to keep
      `ExtractSuffix` cheap. */
  lemma SuffixSlice<T>(a: seq<T>, b: seq<T>, s: seq<T>)
    requires s == a + b
    ensures |s| == |a| + |b| && s[|a|..|s|] == b
  {
  }

  lemma SearchFindsSuffix(body: string, tok: string)
    requires IsTimeToken(tok)
    requires |tok| == 4 ==> body == [] || !IsDigit(body[|body| - 1])
    ensures Search(body + tok) == Some(Span(|body|, |body| + |tok|))
  {
    var s := body + tok;
    assert s[|body|..] == tok;
    assert s[|s| - 1] != '\n' by { assert s[|s| - 1] == tok[|tok| - 1]; }
    assert MatchAt(s, |body|, |s|);
    if |tok| == 4 && |body| > 0 {
      assert !MatchAt(s, |body| - 1, |s|) by {
        assert s[|body| - 1..|s|][0] == body[|body| - 1];
      }
    }
  }

  /** A token whose first character does not appear in `body` occurs in
      `body + tok` only at the end. */
  lemma FirstCharAbsent(body: string, tok: string)
    requires tok != []
    requires forall j :: 0 <= j < |body| ==> body[j] != tok[0]
    ensures forall i :: OccursAt(body + tok, tok, i) ==> i == |body|
  {
    var s := body + tok;
    forall i | OccursAt(s, tok, i) ensures i == |body| {
      assert s[i] == s[i..i + |tok|][0] == tok[0];
    }
  }

  /** "Call mom 18:00" stores "Call mom" with reminder "18:00". */
  lemma CallMomExample()
    ensures ExtractTime("Call mom 18:00") == Extracted("Call mom", Some("18:00"))
  {
    CallMomStrip();
    CallMomSingle();
  }

  lemma CallMomStrip()
    ensures Strip("Call mom ") == "Call mom"
  {
    assert "" + "Call mom" + " " == "Call mom ";
    assert IsSpace(" "[0]);
    StripAround("", "Call mom", " ");
  }

  lemma CallMomSingle()
    ensures ExtractTime("Call mom 18:00") == Extracted(Strip("Call mom "), Some("18:00"))
  {
    var body, tok := "Call mom ", "18:00";
    assert body + tok == "Call mom 18:00";
    FirstCharAbsent(body, tok);
    ExtractSingleToken(body, tok);
  }

  /** Every match ends on a digit, at the end of the text or just before its
      final newline. */
  lemma MatchesEndOnDigit(s: string)
    ensures forall p, q :: MatchAt(s, p, q) ==> p < q && IsDigit(s[q - 1])
  {
    forall p, q | MatchAt(s, p, q) ensures p < q && IsDigit(s[q - 1]) {
      var t := s[p..q];
      assert t[|t| - 1] == s[q - 1];
    }
  }

  /** A text that does not end in a digit (before an optional final newline)
      has no reminder and is kept verbatim. */
  lemma NoTrailingDigit(s: string)
    requires var e := if s != [] && s[|s| - 1] == '\n' then |s| - 1 else |s|;
             e == 0 || !IsDigit(s[e - 1])
    ensures ExtractTime(s) == Extracted(s, None)
  {
    NoMatchAt(s);
  }

  /** The pattern matches nowhere in a text that does not end in a digit (before
      an optional final newline). */
  lemma NoMatchAt(s: string)
    requires var e := if s != [] && s[|s| - 1] == '\n' then |s| - 1 else |s|;
             e == 0 || !IsDigit(s[e - 1])
    ensures forall p, q :: !MatchAt(s, p, q)
  {
    MatchesEndOnDigit(s);
    MatchesEndAt(s, if s != [] && s[|s| - 1] == '\n' then |s| - 1 else |s|);
  }

  /** A time that is not at the very end is not a reminder: the text is kept verbatim. */
  lemma TimeInsideTextExample()
    ensures ExtractTime("call at 9:00 sharp") == Extracted("call at 9:00 sharp", None)
  {
    var s := "call at 9:00 sharp";
    assert s[|s| - 1] == 'p';
    NoTrailingDigit(s);
  }

  /** A text with no time at all is kept verbatim, without a reminder. */
  lemma PlainTextExample()
    ensures ExtractTime("Buy milk") == Extracted("Buy milk", None)
  {
    var s := "Buy milk";
    assert s[|s| - 1] == 'k';
    NoTrailingDigit(s);
  }

  /** The leftmost match wins: "123:45" gives reminder "23:45" and text "1". */
  lemma LeftmostMatchExample()
    ensures ExtractTime("123:45") == Extracted("1", Some("23:45"))
  {
    assert Strip("1") == "1" by {
      assert "" + "1" + "" == "1";
      StripAround("", "1", "");
    }
    LeftmostMatchSingle();
  }

  lemma LeftmostMatchSingle()
    ensures ExtractTime("123:45") == Extracted(Strip("1"), Some("23:45"))
  {
    assert "1" + "23:45" == "123:45";
    FirstCharAbsent("1", "23:45");
    ExtractSingleToken("1", "23:45");
  }

  /** A bare time stores an empty task text. */
  lemma BareTimeExample()
    ensures ExtractTime("18:00") == Extracted("", Some("18:00"))
  {
    ExtractSingleToken("", "18:00");
    assert "" + "18:00" == "18:00";
  }

  /** Every occurrence of the token is removed, not only the trailing one. */
  lemma EveryOccurrenceRemovedExample()
    ensures ExtractTime("10:00 or 10:00") == Extracted("or", Some("10:00"))
  {
    var body, tok := "10:00 or ", "10:00";
    assert body + tok == "10:00 or 10:00";
    SearchFindsSuffix(body, tok);
    assert (body + tok)[9..14] == tok;
    RemoveBothOccurrences();
    StripOrExample();
  }

  lemma StripOrExample()
    ensures Strip(" or ") == "or"
  {
    assert " " + "or" + " " == " or ";
    assert IsSpace(" "[0]);
    StripAround(" ", "or", " ");
  }

  lemma RemoveBothOccurrences()
    ensures RemoveAll("10:00 or 10:00", "10:00") == " or "
  {
    var tok := "10:00";
    var s := "10:00 or 10:00";
    assert s[..5] == tok && s[5..] == " or " + tok;
    FirstCharAbsent(" or ", tok);
    RemoveOnlyOccurrence(" or ", tok);
  }
}
