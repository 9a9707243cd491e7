/** The version badge of the README: shields.io escaping, and the reader that undoes it. */
module Badge {
  import opened Wrappers
  import opened Strings

  /** How shields.io writes a literal text into a badge path: every dash doubled. */
  function Escape(v: string): string {
    if v == "" then "" else (if v[0] == '-' then "--" else [v[0]]) + Escape(v[1..])
  }

  /** `_unescape_badge`: replace "--" by "-", left to right. */
  function Unescape(raw: string): string {
    if "--" <= raw then "-" + Unescape(raw[2..])
    else if raw == "" then ""
    else [raw[0]] + Unescape(raw[1..])
  }

  const PREFIX := "/badge/version-"

  /** The character class `[^-\s)]`. */
  predicate Plain(c: char) { c != '-' && !IsSpace(c) && c != ')' }

  /** `-[0-9A-Za-z]+` matches here. */
  predicate Delimiter(s: string) { |s| >= 2 && s[0] == '-' && IsAlnum(s[1]) }

  /** The group `((?:[^-\s)]|--)+?)` before the first delimiter; `begun` once it has a unit. */
  function Group(s: string, begun: bool): Option<string> {
    if begun && Delimiter(s) then Some("")
    else if s != "" && Plain(s[0]) then Prepend([s[0]], Group(s[1..], true))
    else if "--" <= s then Prepend("--", Group(s[2..], true))
    else None
  }

  function Prepend(head: string, tail: Option<string>): Option<string> {
    if tail.None? then None else Some(head + tail.value)
  }

  predicate Matches(s: string) { PREFIX <= s && Group(s[|PREFIX|..], false).Some? }

  /** `read_readme_badge_version` on the text of the README: the leftmost match, unescaped. */
  function ReadVersion(text: string): Option<string> {
    if Matches(text) then Some(Unescape(Group(text[|PREFIX|..], false).value))
    else if text == "" then None
    else ReadVersion(text[1..])
  }

  /** The characters a badge can carry. */
  predicate Clean(v: string) {
    forall i :: 0 <= i < |v| ==> !IsSpace(v[i]) && v[i] != ')'
  }

  lemma {:induction false} UnescapeEscape(v: string)
    ensures Unescape(Escape(v)) == v
  {
    if v != "" {
      UnescapeEscape(v[1..]);
      assert v == [v[0]] + v[1..];
      if v[0] == '-' {
        assert Escape(v)[2..] == Escape(v[1..]);
      } else {
        assert Escape(v)[0] == v[0] && Escape(v)[1..] == Escape(v[1..]);
      }
    }
  }

  /** The lazy group stops exactly at the delimiter, whatever dashes the version has. */
  lemma {:induction false} GroupEscape(v: string, colour: string, post: string, begun: bool)
    requires Clean(v) && colour != "" && IsAlnum(colour[0]) && (begun || v != "")
    ensures Group(Escape(v) + ("-" + colour + post), begun) == Some(Escape(v))
    decreases |v|
  {
    var tail := "-" + colour + post;
    var s := Escape(v) + tail;
    if v == "" {
      assert s == tail && Delimiter(tail);
    } else {
      GroupEscape(v[1..], colour, post, true);
      if v[0] == '-' {
        assert s[..2] == "--" && s[2..] == Escape(v[1..]) + tail;
        assert "--" <= s && !Delimiter(s);
      } else {
        assert s[0] == v[0] && s[1..] == Escape(v[1..]) + tail;
      }
    }
  }

  lemma {:induction false} GroupIsClean(s: string, begun: bool)
    requires Group(s, begun).Some?
    ensures Clean(Group(s, begun).value) && (!begun ==> Group(s, begun).value != "")
    decreases |s|
  {
    if begun && Delimiter(s) {
    } else if s != "" && Plain(s[0]) {
      GroupIsClean(s[1..], true);
    } else {
      GroupIsClean(s[2..], true);
    }
  }

  lemma {:induction false} UnescapeKeepsClean(raw: string)
    requires Clean(raw)
    ensures Clean(Unescape(raw)) && (raw != "" ==> Unescape(raw) != "")
    decreases |raw|
  {
    if "--" <= raw {
      UnescapeKeepsClean(raw[2..]);
    } else if raw != "" {
      UnescapeKeepsClean(raw[1..]);
    }
  }

  lemma {:induction false} ReadIsClean(text: string)
    requires ReadVersion(text).Some?
    ensures Clean(ReadVersion(text).value) && ReadVersion(text).value != ""
    decreases |text|
  {
    if Matches(text) {
      GroupIsClean(text[|PREFIX|..], false);
      UnescapeKeepsClean(Group(text[|PREFIX|..], false).value);
    } else {
      ReadIsClean(text[1..]);
    }
  }

  lemma {:induction false} FirstMatch(pre: string, rest: string)
    requires forall i :: 0 <= i < |pre| ==> !Matches(pre[i..] + rest)
    ensures ReadVersion(pre + rest) == ReadVersion(rest)
    decreases |pre|
  {
    if pre == "" {
      assert pre + rest == rest;
    } else {
      assert pre[0..] + rest == pre + rest;
      assert (pre + rest)[1..] == pre[1..] + rest;
      forall i | 0 <= i < |pre[1..]| ensures !Matches(pre[1..][i..] + rest) {
        assert pre[1..][i..] == pre[i + 1..];
      }
      FirstMatch(pre[1..], rest);
    }
  }

  /** BADGE ROUND TRIP.  In any text whose first badge is this one, the version read is the version written, with
      all its leading, trailing and repeated dashes, exactly when it is non-empty and has no white space and no
      closing parenthesis. */
  lemma BadgeRoundTripIff(pre: string, v: string, colour: string, post: string)
    requires colour != "" && forall c <- colour :: IsAlnum(c)
    requires var rest := PREFIX + (Escape(v) + ("-" + colour + post));
             forall i :: 0 <= i < |pre| ==> !Matches(pre[i..] + rest)
    ensures ReadVersion(pre + (PREFIX + (Escape(v) + ("-" + colour + post)))) == Some(v) <==> v != "" && Clean(v)
  {
    var body := Escape(v) + ("-" + colour + post);
    var rest := PREFIX + body;
    FirstMatch(pre, rest);
    if v != "" && Clean(v) {
      GroupEscape(v, colour, post, false);
      assert rest[|PREFIX|..] == body;
      UnescapeEscape(v);
    } else if ReadVersion(rest).Some? {
      ReadIsClean(rest);
    }
  }
}
