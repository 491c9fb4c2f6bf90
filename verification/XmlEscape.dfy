/** `xml_escape`: five replacements one after the other (predefined entities, section 4.6 of XML 1.0). */
module XmlEscape {
  import opened Results

  /** `str::replace` for a single character. */
  function ReplaceChar(s: string, c: char, sub: string): string {
    if s == "" then "" else (if s[0] == c then sub else [s[0]]) + ReplaceChar(s[1..], c, sub)
  }

  function Escaped(s: string): string {
    ReplaceChar(ReplaceChar(ReplaceChar(ReplaceChar(ReplaceChar(s,
      '&', "&amp;"), '<', "&lt;"), '>', "&gt;"), '"', "&quot;"), '\'', "&apos;")
  }

  // ---- the same thing in one pass

  /** What one character of the input contributes. */
  function EscapedChar(c: char): string {
    if c == '&' then "&amp;"
    else if c == '<' then "&lt;"
    else if c == '>' then "&gt;"
    else if c == '"' then "&quot;"
    else if c == '\'' then "&apos;"
    else [c]
  }

  function OnePass(s: string): string {
    if s == "" then "" else EscapedChar(s[0]) + OnePass(s[1..])
  }

  lemma {:induction false} ReplaceAppends(s: string, t: string, c: char, sub: string)
    ensures ReplaceChar(s + t, c, sub) == ReplaceChar(s, c, sub) + ReplaceChar(t, c, sub)
  {
    if s == "" {
      assert s + t == t;
    } else {
      assert (s + t)[1..] == s[1..] + t;
      ReplaceAppends(s[1..], t, c, sub);
    }
  }

  lemma EscapedAppends(s: string, t: string)
    ensures Escaped(s + t) == Escaped(s) + Escaped(t)
  {
    hide ReplaceChar;
    ReplaceAppends(s, t, '&', "&amp;");
    var s1, t1 := ReplaceChar(s, '&', "&amp;"), ReplaceChar(t, '&', "&amp;");
    ReplaceAppends(s1, t1, '<', "&lt;");
    var s2, t2 := ReplaceChar(s1, '<', "&lt;"), ReplaceChar(t1, '<', "&lt;");
    ReplaceAppends(s2, t2, '>', "&gt;");
    var s3, t3 := ReplaceChar(s2, '>', "&gt;"), ReplaceChar(t2, '>', "&gt;");
    ReplaceAppends(s3, t3, '"', "&quot;");
    var s4, t4 := ReplaceChar(s3, '"', "&quot;"), ReplaceChar(t3, '"', "&quot;");
    ReplaceAppends(s4, t4, '\'', "&apos;");
  }

  /** A replacement leaves alone a text without its character. */
  lemma {:induction false} ReplaceNothing(s: string, c: char, sub: string)
    requires c !in s
    ensures ReplaceChar(s, c, sub) == s
  {
    if s != "" {
      ReplaceNothing(s[1..], c, sub);
      assert [s[0]] + s[1..] == s;
    }
  }

  lemma ReplaceOne(c: char, d: char, sub: string)
    ensures ReplaceChar([c], d, sub) == if c == d then sub else [c]
  {
    assert ReplaceChar([c][1..], d, sub) == "";
  }

  /** Later passes do not touch what an earlier pass put in: the ampersand goes first. */
  lemma EscapedOne(c: char)
    ensures Escaped([c]) == EscapedChar(c)
  {
    hide ReplaceChar;
    ReplaceOne(c, '&', "&amp;");
    ReplaceOne(c, '<', "&lt;");
    ReplaceOne(c, '>', "&gt;");
    ReplaceOne(c, '"', "&quot;");
    ReplaceOne(c, '\'', "&apos;");
    EntityKept("&amp;");
    EntityKept("&lt;");
    EntityKept("&gt;");
    EntityKept("&quot;");
  }

  lemma EntityKept(e: string)
    requires e in {"&amp;", "&lt;", "&gt;", "&quot;"}
    ensures ReplaceChar(e, '<', "&lt;") == e && ReplaceChar(e, '>', "&gt;") == e
    ensures ReplaceChar(e, '"', "&quot;") == e && ReplaceChar(e, '\'', "&apos;") == e
  {
    hide ReplaceChar;
    ReplaceNothing(e, '<', "&lt;");
    ReplaceNothing(e, '>', "&gt;");
    ReplaceNothing(e, '"', "&quot;");
    ReplaceNothing(e, '\'', "&apos;");
  }

  /** Five passes over the whole text are one simultaneous substitution, character by character. */
  lemma {:induction false} FivePassesAreOne(s: string)
    ensures Escaped(s) == OnePass(s)
  {
    if s != "" {
      hide Escaped, EscapedChar;
      assert s == [s[0]] + s[1..];
      EscapedAppends([s[0]], s[1..]);
      EscapedOne(s[0]);
      FivePassesAreOne(s[1..]);
    }
  }

  // ---- reading it back

  /** The character a text starts with, as a parser sees it, and how many characters it takes. */
  function FirstChar(t: string): (r: Option<(char, nat)>)
    requires t != ""
    ensures r.Some? ==> 0 < r.value.1 <= |t|
  {
    if "&amp;" <= t then Some(('&', 5))
    else if "&lt;" <= t then Some(('<', 4))
    else if "&gt;" <= t then Some(('>', 4))
    else if "&quot;" <= t then Some(('"', 6))
    else if "&apos;" <= t then Some(('\'', 6))
    else if t[0] in {'&', '<', '>', '"', '\''} then None
    else Some((t[0], 1))
  }

  /** Predefined entities replaced by their characters; a stray markup character is an error. */
  function Unescaped(t: string): Option<string>
    decreases |t|
  {
    if t == "" then Some("")
    else
      var first := FirstChar(t);
      if first.None? then None
      else
        var rest := Unescaped(t[first.value.1..]);
        if rest.None? then None else Some([first.value.0] + rest.value)
  }

  lemma FirstReads(c: char, t: string)
    ensures FirstChar(EscapedChar(c) + t) == Some((c, |EscapedChar(c)|))
  {
    var u := EscapedChar(c) + t;
    assert u[..|EscapedChar(c)|] == EscapedChar(c);
    assert u[0] == EscapedChar(c)[0];
    if c == '<' || c == '>' || c == '"' || c == '\'' || c == '&' {
      assert u[1] == EscapedChar(c)[1] && u[2] == EscapedChar(c)[2];
      DistinctEntities(u);
    }
  }

  lemma DistinctEntities(u: string)
    ensures "&amp;" <= u ==> |u| > 2 && u[1] == 'a' && u[2] == 'm'
    ensures "&lt;" <= u ==> |u| > 2 && u[1] == 'l'
    ensures "&gt;" <= u ==> |u| > 2 && u[1] == 'g'
    ensures "&quot;" <= u ==> |u| > 2 && u[1] == 'q'
    ensures "&apos;" <= u ==> |u| > 2 && u[1] == 'a' && u[2] == 'p'
  {
  }

  lemma FirstRead(t: string)
    requires t != "" && FirstChar(t).Some?
    ensures t == EscapedChar(FirstChar(t).value.0) + t[FirstChar(t).value.1..]
  {
  }

  /**
   Escaping is a bijection onto the texts an XML reader takes back to characters: a text unescapes
   to `s` exactly when it is the escaping of `s`. So escaping is injective and is always undone.
   */
  lemma {:induction false} EscapeBijection(t: string, s: string)
    ensures Unescaped(t) == Some(s) <==> t == Escaped(s)
  {
    FivePassesAreOne(s);
    UnescapesOnePass(s);
    if Unescaped(t) == Some(s) {
      OnePassOfUnescaped(t);
    }
  }

  lemma {:induction false} UnescapesOnePass(s: string)
    ensures Unescaped(OnePass(s)) == Some(s)
  {
    if s != "" {
      hide EscapedChar, FirstChar;
      var t := OnePass(s[1..]);
      FirstReads(s[0], t);
      NonEmptyChar(s[0]);
      assert OnePass(s)[|EscapedChar(s[0])|..] == t;
      UnescapesOnePass(s[1..]);
      assert [s[0]] + s[1..] == s;
    }
  }

  lemma NonEmptyChar(c: char)
    ensures EscapedChar(c) != ""
  {
  }

  lemma {:induction false} OnePassOfUnescaped(t: string)
    requires Unescaped(t).Some?
    ensures OnePass(Unescaped(t).value) == t
    decreases |t|
  {
    if t != "" {
      hide EscapedChar, FirstChar;
      var n, s := FirstChar(t).value.1, Unescaped(t).value;
      FirstRead(t);
      OnePassOfUnescaped(t[n..]);
      assert s[1..] == Unescaped(t[n..]).value;
    }
  }

  /** The result can stand in markup: no raw angle bracket and no raw quote is left. */
  lemma {:induction false} EscapedIsInert(s: string)
    ensures forall i :: 0 <= i < |Escaped(s)| ==> Escaped(s)[i] !in {'<', '>', '"', '\''}
  {
    FivePassesAreOne(s);
    OnePassIsInert(s);
  }

  lemma {:induction false} OnePassIsInert(s: string)
    ensures forall i :: 0 <= i < |OnePass(s)| ==> OnePass(s)[i] !in {'<', '>', '"', '\''}
  {
    if s != "" {
      OnePassIsInert(s[1..]);
      var e := EscapedChar(s[0]);
      assert forall i :: 0 <= i < |e| ==> e[i] !in {'<', '>', '"', '\''};
    }
  }
}
