/** Finding a token in a Cookie header.

    `CookieRoundTrip` shows that from a header printed in the form of section 4.2.1 of
    RFC 6265 the value of the first pair with the requested name is found, whatever else
    the values hold. */
module Cookies {
  import opened Options

  predicate Space(c: char) {
    c == ' ' || '\t' <= c <= '\r' || '\U{001C}' <= c <= '\U{001F}'
  }

  function LeftStrip(s: string): string {
    if s != "" && Space(s[0]) then LeftStrip(s[1..]) else s
  }

  function RightStrip(s: string): string {
    if s != "" && Space(s[|s| - 1]) then RightStrip(s[..|s| - 1]) else s
  }

  /** `s.strip()`. */
  function Strip(s: string): string {
    RightStrip(LeftStrip(s))
  }

  predicate AllSpace(s: string) {
    forall c <- s :: Space(c)
  }

  lemma {:induction false} LeftStripCuts(s: string) returns (left: string)
    ensures s == left + LeftStrip(s) && AllSpace(left)
    ensures LeftStrip(s) != "" ==> !Space(LeftStrip(s)[0])
  {
    left := "";
    if s != "" && Space(s[0]) {
      left := LeftStripCuts(s[1..]);
      left := [s[0]] + left;
    }
  }

  lemma {:induction false} RightStripCuts(s: string) returns (right: string)
    ensures s == RightStrip(s) + right && AllSpace(right)
    ensures RightStrip(s) != "" ==> !Space(RightStrip(s)[|RightStrip(s)| - 1])
  {
    right := "";
    if s != "" && Space(s[|s| - 1]) {
      right := RightStripCuts(s[..|s| - 1]);
      right := right + [s[|s| - 1]];
    }
  }

  /** Stripping takes off the white space at both ends, all of it and nothing else. */
  lemma StripCuts(s: string) returns (left: string, right: string)
    ensures s == left + Strip(s) + right && AllSpace(left) && AllSpace(right) && Trimmed(Strip(s))
  {
    left := LeftStripCuts(s);
    right := RightStripCuts(LeftStrip(s));
    assert Strip(s) != "" ==> Strip(s)[0] == LeftStrip(s)[0];
  }

  /** `s.split(';')`. */
  function Split(s: string): (parts: seq<string>)
    ensures parts != []
  {
    if s == "" then [""]
    else
      var rest := Split(s[1..]);
      if s[0] == ';' then [""] + rest else [[s[0]] + rest[0]] + rest[1..]
  }

  /** `s.split("=", 1)[1]` for a text that has a `=`. */
  function AfterEquals(s: string): string
    requires '=' in s
  {
    if s[0] == '=' then s[1..] else AfterEquals(s[1..])
  }

  function Value(cookie: string, name: string): Option<string> {
    var c := Strip(cookie);
    if name + "=" <= c then
      assert c[|name|] == '=';
      Some(Strip(AfterEquals(c)))
    else None
  }

  function FirstValue(cookies: seq<string>, name: string): Option<string> {
    if cookies == [] then None
    else if Value(cookies[0], name).Some? then Value(cookies[0], name)
    else FirstValue(cookies[1..], name)
  }

  method GetTokenFromCookie(header: Option<string>, name: string) returns (token: Option<string>)
    ensures token == if header.None? || header.value == "" then None else FirstValue(Split(header.value), name)
  {
    if header.None? || header.value == "" {
      return None;
    }
    var cookies := Split(header.value);
    for i := 0 to |cookies|
      invariant FirstValue(cookies, name) == FirstValue(cookies[i..], name)
    {
      assert cookies[i..][1..] == cookies[i + 1..];
      var cookie := Strip(cookies[i]);
      if name + "=" <= cookie {
        assert cookie[|name|] == '=';
        return Some(Strip(AfterEquals(cookie)));
      }
    }
    return None;
  }

  /** What an arbitrary part of a header gives: the text after the name and the `=`, both it
      and the part stripped. */
  lemma ValueIs(cookie: string, name: string, v: string)
    requires '=' !in name
    ensures Value(cookie, name) == Some(v) <==> exists w :: Strip(cookie) == name + ("=" + w) && v == Strip(w)
  {
    var c := Strip(cookie);
    if name + "=" <= c {
      var w := c[|name| + 1..];
      assert c == name + ("=" + w);
      AfterFirstEquals(name, w);
    }
    if w :| c == name + ("=" + w) && v == Strip(w) {
      assert c == (name + "=") + w;
      AfterFirstEquals(name, w);
    }
  }

  /** The parts of any header: joined by semicolons they give it back, and none has one. */
  lemma {:induction false} SplitParts(s: string)
    ensures Rejoined(Split(s)) == s && forall part <- Split(s) :: ';' !in part
  {
    if s != "" {
      var rest := Split(s[1..]);
      SplitParts(s[1..]);
      assert rest[0] in rest && forall part <- rest[1..] :: part in rest;
      assert Split(s)[1..] == if s[0] == ';' then rest else rest[1..];
      assert s == [s[0]] + s[1..];
    }
  }

  function Rejoined(parts: seq<string>): string {
    if parts == [] then "" else if |parts| == 1 then parts[0] else parts[0] + (";" + Rejoined(parts[1..]))
  }

  /** And from any header the first part that has a value for the name decides. */
  lemma {:induction false} FirstValueIs(cookies: seq<string>, name: string, v: string)
    ensures FirstValue(cookies, name) == Some(v) <==>
      exists i | 0 <= i < |cookies| :: Value(cookies[i], name) == Some(v) && NoValueBefore(cookies, name, i)
  {
    if cookies != [] {
      var rest := cookies[1..];
      FirstValueIs(rest, name, v);
      if Value(cookies[0], name).None? {
        forall i | 0 <= i < |rest| ensures NoValueBefore(cookies, name, i + 1) <==> NoValueBefore(rest, name, i) {
          assert NoValueBefore(rest, name, i) ==> forall j | 0 < j < i + 1 :: cookies[j] == rest[j - 1];
        }
        if i :| 0 <= i < |rest| && Value(rest[i], name) == Some(v) && NoValueBefore(rest, name, i) {
          assert Value(cookies[i + 1], name) == Some(v) && NoValueBefore(cookies, name, i + 1);
        }
        if i :| 0 <= i < |cookies| && Value(cookies[i], name) == Some(v) && NoValueBefore(cookies, name, i) {
          assert Value(rest[i - 1], name) == Some(v) && NoValueBefore(rest, name, i - 1);
        }
      }
    }
  }

  predicate NoValueBefore(cookies: seq<string>, name: string, i: nat)
    requires i <= |cookies|
  {
    forall j | 0 <= j < i :: Value(cookies[j], name).None?
  }

  // ---------- Printing ----------

  datatype Pair = Pair(name: string, value: string)

  function PrintPair(p: Pair): string {
    p.name + ("=" + p.value)
  }

  /** Pairs joined by a semicolon and a space. */
  function Print(pairs: seq<Pair>): string {
    if pairs == [] then ""
    else if |pairs| == 1 then PrintPair(pairs[0])
    else PrintPair(pairs[0]) + ("; " + Print(pairs[1..]))
  }

  predicate Trimmed(s: string) {
    s != "" ==> !Space(s[0]) && !Space(s[|s| - 1])
  }

  /** A pair that can be printed: no semicolon, no space around name or value, and no `=`
      in the name. */
  predicate Printable(p: Pair) {
    ';' !in p.name && ';' !in p.value && Trimmed(p.name) && Trimmed(p.value) && '=' !in p.name
  }

  function Lookup(pairs: seq<Pair>, name: string): Option<string> {
    if pairs == [] then None
    else if pairs[0].name == name then Some(pairs[0].value)
    else Lookup(pairs[1..], name)
  }

  // ---------- Round trip ----------

  lemma {:induction false} SplitText(text: string)
    requires ';' !in text
    ensures Split(text) == [text]
  {
    if text != "" {
      SplitText(text[1..]);
      assert text == [text[0]] + text[1..];
    }
  }

  lemma {:induction false} SplitJoined(text: string, rest: string)
    requires ';' !in text
    ensures Split(text + (";" + rest)) == [text] + Split(rest)
  {
    var s := text + (";" + rest);
    if text == "" {
      assert s[1..] == rest;
    } else {
      SplitJoined(text[1..], rest);
      assert s[1..] == text[1..] + (";" + rest);
      assert text == [text[0]] + text[1..];
    }
  }

  /** The parts of a printed header: every pair, all but the first after a space. */
  function Parts(pairs: seq<Pair>, lead: string): seq<string> {
    if pairs == [] then [] else [lead + PrintPair(pairs[0])] + Parts(pairs[1..], " ")
  }

  lemma NoSemicolon(p: Pair, lead: string)
    requires Printable(p) && ';' !in lead
    ensures ';' !in lead + PrintPair(p)
  {
  }

  lemma Regroup(lead: string, pair: string, rest: string)
    ensures lead + (pair + ("; " + rest)) == (lead + pair) + (";" + (" " + rest))
  {
    assert "; " + rest == ";" + (" " + rest);
  }

  lemma {:induction false} SplitPrinted(pairs: seq<Pair>, lead: string)
    requires pairs != [] && (forall p <- pairs :: Printable(p)) && ';' !in lead
    ensures Split(lead + Print(pairs)) == Parts(pairs, lead)
    decreases |pairs|
  {
    assert pairs[0] in pairs && forall p <- pairs[1..] :: p in pairs;
    var first := lead + PrintPair(pairs[0]);
    NoSemicolon(pairs[0], lead);
    if |pairs| == 1 {
      SplitText(first);
      assert pairs[1..] == [];
    } else {
      var rest := Print(pairs[1..]);
      SplitPrinted(pairs[1..], " ");
      SplitJoined(first, " " + rest);
      Regroup(lead, PrintPair(pairs[0]), rest);
    }
  }

  lemma StripTrimmed(s: string, lead: string)
    requires Trimmed(s) && (lead == "" || lead == " ")
    ensures Strip(lead + s) == s
  {
    assert LeftStrip(s) == s && RightStrip(s) == s;
    if lead == " " {
      assert (lead + s)[0] == ' ' && (lead + s)[1..] == s;
    } else {
      assert lead + s == s;
    }
  }

  lemma {:induction false} AfterFirstEquals(name: string, value: string)
    requires '=' !in name
    ensures '=' in name + ("=" + value) && AfterEquals(name + ("=" + value)) == value
  {
    var s := name + ("=" + value);
    assert s[|name|] == '=';
    if name == "" {
      assert s[1..] == value;
    } else {
      AfterFirstEquals(name[1..], value);
      assert s[1..] == name[1..] + ("=" + value);
    }
  }

  lemma SamePrefix(p: Pair, name: string)
    requires '=' !in p.name && '=' !in name && name + "=" <= PrintPair(p)
    ensures p.name == name
  {
    var s := PrintPair(p);
    var after := s[|name| + 1..];
    assert s == name + ("=" + after);
    AfterFirstEquals(p.name, p.value);
    AfterFirstEquals(name, after);
    assert |name| == |p.name| && s[..|name|] == name && s[..|p.name|] == p.name;
  }

  lemma PairIsTrimmed(p: Pair)
    requires Printable(p)
    ensures Trimmed(PrintPair(p))
  {
    var s := PrintPair(p);
    assert s[0] == if p.name == "" then '=' else p.name[0];
    assert s[|s| - 1] == if p.value == "" then '=' else p.value[|p.value| - 1];
  }

  lemma StripValue(p: Pair)
    requires Printable(p)
    ensures '=' in PrintPair(p) && Strip(AfterEquals(PrintPair(p))) == p.value
  {
    AfterFirstEquals(p.name, p.value);
    StripTrimmed(p.value, "");
    assert "" + p.value == p.value;
  }

  lemma OwnValue(c: string, p: Pair)
    requires Printable(p) && Strip(c) == PrintPair(p)
    ensures Value(c, p.name) == Some(p.value)
  {
    assert Strip(c) == (p.name + "=") + p.value;
    StripValue(p);
  }

  lemma NoOtherValue(c: string, p: Pair, name: string)
    requires Printable(p) && Strip(c) == PrintPair(p) && '=' !in name && p.name != name
    ensures Value(c, name) == None
  {
    if name + "=" <= PrintPair(p) { SamePrefix(p, name); }
  }

  /** A printed pair has a value under its own name and under no other. */
  lemma PairValue(p: Pair, lead: string, name: string)
    requires Printable(p) && '=' !in name && (lead == "" || lead == " ")
    ensures Value(lead + PrintPair(p), name) == if p.name == name then Some(p.value) else None
  {
    PairIsTrimmed(p);
    StripTrimmed(PrintPair(p), lead);
    if p.name == name {
      OwnValue(lead + PrintPair(p), p);
    } else {
      NoOtherValue(lead + PrintPair(p), p, name);
    }
  }

  lemma {:induction false} FirstValueOfParts(pairs: seq<Pair>, lead: string, name: string)
    requires (forall p <- pairs :: Printable(p)) && '=' !in name && (lead == "" || lead == " ")
    ensures FirstValue(Parts(pairs, lead), name) == Lookup(pairs, name)
    decreases |pairs|
  {
    if pairs != [] {
      assert pairs[0] in pairs && forall p <- pairs[1..] :: p in pairs;
      PairValue(pairs[0], lead, name);
      FirstValueOfParts(pairs[1..], " ", name);
      assert Parts(pairs, lead)[1..] == Parts(pairs[1..], " ");
    }
  }

  /** What the parser finds in a printed header. */
  lemma CookieRoundTrip(pairs: seq<Pair>, name: string)
    requires pairs != [] && (forall p <- pairs :: Printable(p)) && '=' !in name
    ensures Print(pairs) != "" && FirstValue(Split(Print(pairs)), name) == Lookup(pairs, name)
  {
    SplitPrinted(pairs, "");
    assert "" + Print(pairs) == Print(pairs);
    FirstValueOfParts(pairs, "", name);
    assert '=' in PrintPair(pairs[0]) by { assert PrintPair(pairs[0])[|pairs[0].name|] == '='; }
  }
}
