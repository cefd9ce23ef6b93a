/** Templates with placeholders in braces, filled one after another with `str.replace`.

    A template is read into pieces, texts and holes; a step replaces one placeholder by its
    value wherever it finds it, be it in the template or in a value that came in before.
    Two things can go wrong: a value holds a placeholder that is filled after it; or a value
    ends with the first part of one and another value begins with its last part, with a text
    of the template between them. A step that puts a placeholder for itself does no harm.

    `SequentialIsSimultaneous` shows that else this chain of replacements is the same as
    filling every placeholder at once. `SequentialExactly` says that this is needed, too,
    unless later steps happen to undo what an earlier one did wrong; for values in quotes
    (`MildExactly`) and for values that only values in quotes follow (`BeforeQuotedNoReturn`,
    `TwiceNoReturn`) they do not. */
module TemplateReplacement {
  import opened Options

  // ---------- str.replace ----------

  /** `s.replace(pattern, value)`: matches are taken from the left and do not overlap. */
  function Replace(s: string, pattern: string, value: string): string
    requires pattern != ""
    decreases |s|
  {
    if s == "" then ""
    else if pattern <= s then value + Replace(s[|pattern|..], pattern, value)
    else [s[0]] + Replace(s[1..], pattern, value)
  }

  /** `pattern in s`. */
  predicate Contains(s: string, pattern: string)
    decreases |s|
  {
    pattern <= s || (s != "" && Contains(s[1..], pattern))
  }

  lemma {:induction false} ReplaceAbsent(s: string, pattern: string, value: string)
    requires pattern != "" && !Contains(s, pattern)
    ensures Replace(s, pattern, value) == s
    decreases |s|
  {
    if s != "" {
      ReplaceAbsent(s[1..], pattern, value);
      assert s == [s[0]] + s[1..];
    }
  }

  predicate Plain(s: string) {
    '{' !in s && '}' !in s
  }

  // ---------- Templates ----------

  /** A piece of a template: text without braces, or the name of a placeholder. */
  datatype Piece = Text(text: string) | Hole(name: string)
  {
    predicate Ok() { if Text? then Plain(text) else Plain(name) }
  }

  predicate AllOk(pieces: seq<Piece>) {
    forall p <- pieces :: p.Ok()
  }

  function Braced(name: string): string {
    "{" + name + "}"
  }

  function Print(pieces: seq<Piece>): string {
    if pieces == [] then ""
    else
      var rest := Print(pieces[1..]);
      match pieces[0]
      case Text(t) => t + rest
      case Hole(name) => Braced(name) + rest
  }

  /** The part of a text before its first brace. */
  function BeforeBrace(s: string): (r: string)
    ensures Plain(r) && r <= s
  {
    if s == "" || s[0] == '{' || s[0] == '}' then "" else [s[0]] + BeforeBrace(s[1..])
  }

  /** A template read into pieces; None if its braces do more than delimit placeholders. */
  function Parse(s: string): Option<seq<Piece>>
    decreases |s|
  {
    if s == "" then Some([])
    else if s[0] == '}' then None
    else if s[0] == '{' then
      var name := BeforeBrace(s[1..]);
      var rest := s[1..][|name|..];
      if rest == "" || rest[0] != '}' then None
      else
        match Parse(rest[1..])
        case None => None
        case Some(pieces) => Some([Hole(name)] + pieces)
    else
      match Parse(s[1..])
      case None => None
      case Some(pieces) => Some([Text([s[0]])] + pieces)
  }

  lemma {:induction false} ParsePrints(s: string)
    requires Parse(s).Some?
    ensures AllOk(Parse(s).value) && Print(Parse(s).value) == s
    decreases |s|
  {
    if s != "" {
      var pieces := Parse(s).value;
      if s[0] == '{' {
        var name := BeforeBrace(s[1..]);
        var rest := s[1..][|name|..];
        ParsePrints(rest[1..]);
        assert s == "{" + name + "}" + rest[1..];
      } else {
        ParsePrints(s[1..]);
        assert s == [s[0]] + s[1..];
      }
      assert pieces[1..] == Parse(if s[0] == '{' then s[1..][|BeforeBrace(s[1..])| + 1..] else s[1..]).value;
    }
  }

  // ---------- One replacement ----------

  function FillHole(pieces: seq<Piece>, name: string, value: string): seq<Piece> {
    if pieces == [] then []
    else [if pieces[0] == Hole(name) then Text(value) else pieces[0]] + FillHole(pieces[1..], name, value)
  }

  /** The first text ends in a part of the placeholder and the second begins with another, so
      that together, with a text between them, they can make the whole. */
  predicate Cross(first: string, second: string, name: string) {
    var b := Braced(name);
    exists m, k | 1 <= m <= k < |b| && m <= |first| :: first[|first| - m..] == b[..m] && b[k..] <= second
  }

  /** Names without braces, and no texts that hold or make the placeholder. */
  predicate Separate(pieces: seq<Piece>, name: string) {
    && (forall p <- pieces :: if p.Text? then !Contains(p.text, Braced(name)) else Plain(p.name))
    && forall p <- pieces, q <- pieces | p.Text? && q.Text? :: !Cross(p.text, q.text, name)
  }

  lemma {:induction false} ContainsAt(s: string, pattern: string)
    ensures Contains(s, pattern) <==> exists x | 0 <= x <= |s| :: pattern <= s[x..]
    decreases |s|
  {
    assert s[0..] == s;
    if s != "" {
      ContainsAt(s[1..], pattern);
      forall x | 0 < x <= |s| ensures s[x..] == s[1..][x - 1..] {}
      if x :| 0 <= x <= |s[1..]| && pattern <= s[1..][x..] { assert s[x + 1..] == s[1..][x..]; }
    }
  }

  /** A placeholder that goes on into some pieces ends in a text of theirs. */
  lemma {:induction false} EndsInText(pieces: seq<Piece>, name: string, m: nat) returns (k: nat, q: Piece)
    requires Plain(name) && 1 <= m < |Braced(name)| && Braced(name)[m..] <= Print(pieces)
    ensures m <= k < |Braced(name)| && q in pieces && q.Text? && Braced(name)[k..] <= q.text
  {
    var b, rest := Braced(name), Print(pieces[1..]);
    assert b[m] != '{' && Print(pieces)[0] == b[m..][0];
    var t := pieces[0].text;
    if |t| >= |b| - m {
      k, q := m, pieces[0];
      assert b[m..] == (t + rest)[..|b| - m] == t[..|b| - m];
    } else {
      assert b[m + |t|..] == b[m..][|t|..] && rest == (t + rest)[|t|..];
      k, q := EndsInText(pieces[1..], name, m + |t|);
    }
  }

  /** A match that begins in a text lies in it, or goes on after it. */
  lemma SplitMatch(text: string, rest: string, x: nat, b: string)
    requires x < |text|
    ensures b <= (text + rest)[x..] ==>
      if x + |b| <= |text| then b <= text[x..] else text[x..] == b[..|text| - x] && b[|text| - x..] <= rest
  {
    var s := (text + rest)[x..];
    if b <= s {
      assert b == s[..|b|];
      if x + |b| <= |text| {
        assert s[..|b|] == text[x..][..|b|];
      } else {
        var m := |text| - x;
        assert s[..|b|][..m] == text[x..] && s[..|b|][m..] == rest[..|b| - m];
      }
    }
  }

  lemma NoMatchBegins(text: string, pieces: seq<Piece>, name: string, x: nat)
    requires Plain(name) && Separate([Text(text)] + pieces, name) && x < |text|
    ensures !(Braced(name) <= (text + Print(pieces))[x..])
  {
    var b, rest, all := Braced(name), Print(pieces), [Text(text)] + pieces;
    assert Text(text) in all && forall p <- pieces :: p in all;
    ContainsAt(text, b);
    SplitMatch(text, rest, x, b);
    if b <= (text + rest)[x..] && |text| - x < |b| {
      var k, q := EndsInText(pieces, name, |text| - x);
      assert q in all && Cross(text, q.text, name);
    }
  }

  lemma {:induction false} ReplaceSkips(text: string, rest: string, name: string, value: string)
    requires forall x | 0 <= x < |text| :: !(Braced(name) <= (text + rest)[x..])
    ensures Replace(text + rest, Braced(name), value) == text + Replace(rest, Braced(name), value)
    decreases |text|
  {
    if text == "" {
      assert text + rest == rest;
    } else {
      var s := text + rest;
      assert s[0..] == s && s[1..] == text[1..] + rest;
      forall x | 0 <= x < |text[1..]| ensures (text[1..] + rest)[x..] == s[x + 1..] {}
      ReplaceSkips(text[1..], rest, name, value);
      assert text == [text[0]] + text[1..];
    }
  }

  lemma {:induction false} BeforeBraceOfName(name: string, rest: string)
    requires Plain(name)
    ensures BeforeBrace(name + ("}" + rest)) == name
  {
    if name == "" {
      assert name + ("}" + rest) == "}" + rest;
    } else {
      assert name[0] in name && forall c <- name[1..] :: c in name;
      BeforeBraceOfName(name[1..], rest);
      assert (name + ("}" + rest))[1..] == name[1..] + ("}" + rest);
      assert name == [name[0]] + name[1..];
    }
  }

  lemma MatchIsSameHole(hole: string, rest: string, name: string)
    requires Plain(hole) && Plain(name) && Braced(name) <= Braced(hole) + rest
    ensures hole == name
  {
    var s := Braced(hole) + rest;
    var after := s[|Braced(name)|..];
    assert s == Braced(name) + after;
    assert s[1..] == hole + ("}" + rest) && s[1..] == name + ("}" + after);
    BeforeBraceOfName(hole, rest);
    BeforeBraceOfName(name, after);
  }

  lemma ReplaceAtHole(hole: string, rest: string, name: string, value: string)
    requires Plain(hole) && Plain(name)
    ensures Replace(Braced(hole) + rest, Braced(name), value) ==
      (if hole == name then value else Braced(hole)) + Replace(rest, Braced(name), value)
  {
    var s := Braced(hole) + rest;
    if hole == name {
      assert s[|Braced(name)|..] == rest;
    } else {
      if Braced(name) <= s { MatchIsSameHole(hole, rest, name); }
      var tail := hole + "}";
      assert s[1..] == tail + rest;
      forall x | 0 <= x < |tail| ensures !(Braced(name) <= (tail + rest)[x..]) {
        assert (tail + rest)[x..][0] == tail[x] != '{';
      }
      ReplaceSkips(tail, rest, name, value);
      assert Braced(hole) == [s[0]] + tail;
    }
  }

  /** Replacing one placeholder in the printed template fills that hole and nothing else. */
  lemma {:induction false} ReplaceFillsHole(pieces: seq<Piece>, name: string, value: string)
    requires Separate(pieces, name) && Plain(name)
    ensures Replace(Print(pieces), Braced(name), value) == Print(FillHole(pieces, name, value))
  {
    if pieces != [] {
      assert pieces[0] in pieces && forall p <- pieces[1..] :: p in pieces;
      assert pieces == [pieces[0]] + pieces[1..];
      ReplaceFillsHole(pieces[1..], name, value);
      match pieces[0] {
        case Text(t) =>
          forall x | 0 <= x < |t| ensures !(Braced(name) <= (t + Print(pieces[1..]))[x..]) {
            NoMatchBegins(t, pieces[1..], name, x);
          }
          ReplaceSkips(t, Print(pieces[1..]), name, value);
        case Hole(hole) => ReplaceAtHole(hole, Print(pieces[1..]), name, value);
      }
    }
  }

  /** A placeholder put for itself changes nothing. */
  lemma {:induction false} ReplaceBySelf(s: string, pattern: string)
    requires pattern != ""
    ensures Replace(s, pattern, pattern) == s
    decreases |s|
  {
    if s == "" {
    } else if pattern <= s {
      ReplaceBySelf(s[|pattern|..], pattern);
      assert s == pattern + s[|pattern|..];
    } else {
      ReplaceBySelf(s[1..], pattern);
      assert s == [s[0]] + s[1..];
    }
  }

  lemma {:induction false} FillBySelf(pieces: seq<Piece>, name: string)
    ensures Print(FillHole(pieces, name, Braced(name))) == Print(pieces)
  {
    if pieces != [] { FillBySelf(pieces[1..], name); }
  }

  // ---------- The chain ----------

  datatype Step = Step(name: string, value: string)

  function ReplaceAll(s: string, steps: seq<Step>): string
    decreases |steps|
  {
    if steps == [] then s else ReplaceAll(Replace(s, Braced(steps[0].name), steps[0].value), steps[1..])
  }

  lemma {:induction false} ReplaceAllConcat(s: string, first: seq<Step>, second: seq<Step>)
    ensures ReplaceAll(s, first + second) == ReplaceAll(ReplaceAll(s, first), second)
    decreases |first|
  {
    if first == [] {
      assert first + second == second;
    } else {
      assert (first + second)[1..] == first[1..] + second;
      ReplaceAllConcat(Replace(s, Braced(first[0].name), first[0].value), first[1..], second);
    }
  }

  function Lookup(steps: seq<Step>, name: string): Option<string> {
    if steps == [] then None
    else if steps[0].name == name then Some(steps[0].value)
    else Lookup(steps[1..], name)
  }

  /** The template with every placeholder filled at once; one without a value stays. */
  function Render(pieces: seq<Piece>, steps: seq<Step>): string {
    if pieces == [] then ""
    else
      var rest := Render(pieces[1..], steps);
      match pieces[0]
      case Text(t) => t + rest
      case Hole(name) =>
        match Lookup(steps, name)
        case Some(value) => value + rest
        case None => Braced(name) + rest
  }

  predicate PlainSteps(steps: seq<Step>) {
    forall s <- steps :: Plain(s.name) && Plain(s.value)
  }

  lemma {:induction false} RenderAfterFill(pieces: seq<Piece>, step: Step, steps: seq<Step>)
    ensures Render(FillHole(pieces, step.name, step.value), steps) == Render(pieces, [step] + steps)
  {
    if pieces != [] {
      RenderAfterFill(pieces[1..], step, steps);
      assert ([step] + steps)[1..] == steps;
      assert FillHole(pieces, step.name, step.value)[1..] == FillHole(pieces[1..], step.name, step.value);
    }
  }

  lemma {:induction false} RenderNothing(pieces: seq<Piece>)
    ensures Render(pieces, []) == Print(pieces)
  {
    if pieces != [] { RenderNothing(pieces[1..]); }
  }

  /** The values filled before step `j` neither hold its placeholder nor make it. */
  predicate Apart(steps: seq<Step>, j: nat)
    requires j < |steps|
  {
    && (forall i | 0 <= i < j :: !Contains(steps[i].value, Braced(steps[j].name)))
    && forall h, i | 0 <= h < j && 0 <= i < j :: !Cross(steps[h].value, steps[i].value, steps[j].name)
  }

  /** Nothing but the holes of a template is filled by any step; or it is filled with the
      placeholder that stands there. */
  predicate Settled(steps: seq<Step>) {
    && (forall s <- steps :: Plain(s.name))
    && forall j | 0 <= j < |steps| :: steps[j].value == Braced(steps[j].name) || Apart(steps, j)
  }

  /** Texts of a template or values of the steps so far. */
  predicate Mixed(pieces: seq<Piece>, steps: seq<Step>, n: nat)
    requires n <= |steps|
  {
    forall p <- pieces ::
      if p.Text? then Plain(p.text) || exists i | 0 <= i < n :: p.text == steps[i].value else Plain(p.name)
  }

  lemma CrossNeedsBraces(first: string, second: string, name: string)
    ensures Cross(first, second, name) ==>
      '{' in first && '}' in second && first[|first| - 1] in Braced(name)
  {
    if Cross(first, second, name) {
      var b := Braced(name);
      var m, k :| 1 <= m <= k < |b| && m <= |first| && first[|first| - m..] == b[..m] && b[k..] <= second;
      assert first[|first| - m] == first[|first| - m..][0] == b[..m][0] == '{';
      assert second[|b| - 1 - k] == b[k..][|b| - 1 - k] == '}';
      assert first[|first| - 1] == first[|first| - m..][m - 1] == b[m - 1];
    }
  }

  lemma ContainsNeedsBrace(s: string, name: string)
    ensures Contains(s, Braced(name)) ==> '{' in s
  {
    ContainsAt(s, Braced(name));
    if x :| 0 <= x <= |s| && Braced(name) <= s[x..] { assert s[x..][0] == '{' && s[x] in s; }
  }

  lemma MixedIsSeparate(pieces: seq<Piece>, steps: seq<Step>, j: nat)
    requires j < |steps| && Mixed(pieces, steps, j) && Apart(steps, j)
    ensures Separate(pieces, steps[j].name)
  {
    var name := steps[j].name;
    forall p <- pieces | p.Text? ensures !Contains(p.text, Braced(name)) { ContainsNeedsBrace(p.text, name); }
    forall p <- pieces, q <- pieces | p.Text? && q.Text? ensures !Cross(p.text, q.text, name) {
      CrossNeedsBraces(p.text, q.text, name);
    }
  }

  lemma {:induction false} FillStaysMixed(pieces: seq<Piece>, steps: seq<Step>, n: nat)
    requires n < |steps| && Mixed(pieces, steps, n)
    ensures Mixed(FillHole(pieces, steps[n].name, steps[n].value), steps, n + 1)
  {
    if pieces != [] {
      assert pieces[0] in pieces && forall p <- pieces[1..] :: p in pieces;
      FillStaysMixed(pieces[1..], steps, n);
    }
  }

  lemma {:induction false} ChainFills(pieces: seq<Piece>, steps: seq<Step>, n: nat)
    requires n <= |steps| && Mixed(pieces, steps, n) && Settled(steps)
    ensures ReplaceAll(Print(pieces), steps[n..]) == Render(pieces, steps[n..])
    decreases |steps| - n
  {
    if n == |steps| {
      RenderNothing(pieces);
    } else {
      var step, rest := steps[n], steps[n + 1..];
      assert step in steps && steps[n..] == [step] + rest && steps[n..][1..] == rest;
      if step.value == Braced(step.name) {
        ReplaceBySelf(Print(pieces), step.value);
        FillBySelf(pieces, step.name);
      } else {
        MixedIsSeparate(pieces, steps, n);
        ReplaceFillsHole(pieces, step.name, step.value);
      }
      FillStaysMixed(pieces, steps, n);
      ChainFills(FillHole(pieces, step.name, step.value), steps, n + 1);
      RenderAfterFill(pieces, step, rest);
    }
  }

  /** The chain of replacements fills all placeholders as if at once. */
  lemma SequentialIsSimultaneous(pieces: seq<Piece>, steps: seq<Step>)
    requires AllOk(pieces) && Settled(steps)
    ensures ReplaceAll(Print(pieces), steps) == Render(pieces, steps)
  {
    assert steps[0..] == steps;
    ChainFills(pieces, steps, 0);
  }

  /** It is enough that no value but the last has an opening brace. */
  lemma NoOpenBraceSettles(steps: seq<Step>)
    requires forall s <- steps :: Plain(s.name)
    requires forall i | 0 <= i < |steps| - 1 :: '{' !in steps[i].value
    ensures Settled(steps)
  {
    forall j | 0 <= j < |steps| ensures Apart(steps, j) { NoOpenBraceBefore(steps, j); }
  }

  lemma NoOpenBraceBefore(steps: seq<Step>, j: nat)
    requires j < |steps| && forall i | 0 <= i < j :: '{' !in steps[i].value
    ensures Apart(steps, j)
  {
    forall i | 0 <= i < j ensures !Contains(steps[i].value, Braced(steps[j].name)) {
      ContainsNeedsBrace(steps[i].value, steps[j].name);
    }
    forall h, i | 0 <= h < j && 0 <= i < j ensures !Cross(steps[h].value, steps[i].value, steps[j].name) {
      CrossNeedsBraces(steps[h].value, steps[i].value, steps[j].name);
    }
  }

  // ---------- What a replacement leaves behind ----------

  function Count(s: string, c: char): nat {
    if s == "" then 0 else Count(s[1..], c) + if s[0] == c then 1 else 0
  }

  lemma {:induction false} CountConcat(a: string, b: string, c: char)
    ensures Count(a + b, c) == Count(a, c) + Count(b, c)
  {
    if a == "" {
      assert a + b == b;
    } else {
      CountConcat(a[1..], b, c);
      assert (a + b)[1..] == a[1..] + b;
    }
  }

  lemma {:induction false} CountNone(s: string, c: char)
    ensures Count(s, c) == 0 <==> c !in s
  {
    if s != "" {
      CountNone(s[1..], c);
      assert s == [s[0]] + s[1..];
    }
  }

  lemma CountOnce(a: string, c: char, b: string)
    requires c !in a && c !in b
    ensures Count(a + ([c] + b), c) == 1
  {
    CountConcat(a, [c] + b, c);
    assert ([c] + b)[1..] == b;
    CountNone(a, c);
    CountNone(b, c);
  }

  /** How a replacement changes the number of one character, where the value has at least as
      many as the pattern. */
  lemma {:induction false} ReplaceAdds(s: string, pattern: string, value: string, c: char)
    requires pattern != "" && Count(value, c) >= Count(pattern, c)
    ensures Count(Replace(s, pattern, value), c) >= Count(s, c)
    ensures Contains(s, pattern) && Count(value, c) > Count(pattern, c) ==>
      Count(Replace(s, pattern, value), c) > Count(s, c)
    decreases |s|
  {
    if s == "" {
    } else if pattern <= s {
      var rest := s[|pattern|..];
      ReplaceAdds(rest, pattern, value, c);
      assert s == pattern + rest;
      CountConcat(pattern, rest, c);
      CountConcat(value, Replace(rest, pattern, value), c);
    } else {
      ReplaceAdds(s[1..], pattern, value, c);
      CountConcat([s[0]], Replace(s[1..], pattern, value), c);
      CountConcat([s[0]], s[1..], c);
      assert s == [s[0]] + s[1..];
    }
  }

  lemma {:induction false} ReplaceRemoves(s: string, pattern: string, value: string, c: char)
    requires pattern != "" && Count(value, c) <= Count(pattern, c)
    ensures Count(Replace(s, pattern, value), c) <= Count(s, c)
    ensures Contains(s, pattern) && Count(value, c) < Count(pattern, c) ==>
      Count(Replace(s, pattern, value), c) < Count(s, c)
    decreases |s|
  {
    if s == "" {
    } else if pattern <= s {
      var rest := s[|pattern|..];
      ReplaceRemoves(rest, pattern, value, c);
      assert s == pattern + rest;
      CountConcat(pattern, rest, c);
      CountConcat(value, Replace(rest, pattern, value), c);
    } else {
      ReplaceRemoves(s[1..], pattern, value, c);
      CountConcat([s[0]], Replace(s[1..], pattern, value), c);
      CountConcat([s[0]], s[1..], c);
      assert s == [s[0]] + s[1..];
    }
  }

  lemma {:induction false} ReplaceLength(s: string, pattern: string, value: string)
    requires pattern != ""
    ensures |value| >= |pattern| ==> |Replace(s, pattern, value)| >= |s|
    ensures |value| <= |pattern| ==> |Replace(s, pattern, value)| <= |s|
    ensures Contains(s, pattern) && |value| > |pattern| ==> |Replace(s, pattern, value)| > |s|
    ensures Contains(s, pattern) && |value| < |pattern| ==> |Replace(s, pattern, value)| < |s|
    decreases |s|
  {
    if s == "" {
    } else if pattern <= s {
      ReplaceLength(s[|pattern|..], pattern, value);
    } else {
      ReplaceLength(s[1..], pattern, value);
    }
  }

  /** A replacement that finds something, and puts something else for it, changes the text. */
  lemma {:induction false} ReplaceChanges(s: string, pattern: string, value: string)
    requires pattern != "" && value != pattern && Contains(s, pattern)
    ensures Replace(s, pattern, value) != s
    decreases |s|
  {
    ReplaceLength(s, pattern, value);
    if |value| == |pattern| {
      var r := Replace(s, pattern, value);
      if pattern <= s {
        assert r[..|pattern|] == value && s[..|pattern|] == pattern;
      } else {
        ReplaceChanges(s[1..], pattern, value);
        assert r[1..] == Replace(s[1..], pattern, value);
      }
    }
  }

  // ---------- Exactly when ----------

  /** A text that has the placeholder of step `j` is not what the chain from there makes of
      it. */
  ghost predicate NoReturn(steps: seq<Step>, j: nat)
    requires j < |steps|
  {
    forall s | Contains(s, Braced(steps[j].name)) :: ReplaceAll(s, steps[j..]) != s
  }

  predicate DistinctNames(steps: seq<Step>) {
    forall i, j | 0 <= i < j < |steps| :: steps[i].name != steps[j].name
  }

  ghost predicate AlwaysSimultaneous(steps: seq<Step>) {
    forall pieces | AllOk(pieces) :: ReplaceAll(Print(pieces), steps) == Render(pieces, steps)
  }

  lemma ApartBefore(steps: seq<Step>, n: nat, j: nat)
    requires j < n <= |steps|
    ensures Apart(steps[..n], j) <==> Apart(steps, j)
  {
  }

  /** The first step that fills something but its hole. */
  lemma {:induction false} FirstMeeting(steps: seq<Step>) returns (j: nat)
    requires !Settled(steps) && forall s <- steps :: Plain(s.name)
    ensures j < |steps| && steps[j].value != Braced(steps[j].name) && !Apart(steps, j) && Settled(steps[..j])
    decreases |steps|
  {
    var init := steps[..|steps| - 1];
    forall i | 0 <= i < |init| ensures Apart(init, i) <==> Apart(steps, i) { ApartBefore(steps, |init|, i); }
    if Settled(init) {
      j := |init|;
    } else {
      j := FirstMeeting(init);
      assert init[..j] == steps[..j];
    }
  }

  lemma {:induction false} LookupBefore(steps: seq<Step>, j: nat, i: nat)
    requires i < j <= |steps| && DistinctNames(steps)
    ensures Lookup(steps, steps[i].name) == Lookup(steps[..j], steps[i].name) == Some(steps[i].value)
  {
    if i > 0 {
      assert steps[1..][..j - 1] == steps[..j][1..];
      LookupBefore(steps[1..], j - 1, i - 1);
    }
  }

  /** A template that fills into the placeholder of step `j` before it. */
  lemma MeetingShows(pieces: seq<Piece>, steps: seq<Step>, j: nat, s: string)
    requires j < |steps| && AllOk(pieces) && Settled(steps[..j]) && NoReturn(steps, j)
    requires s == Render(pieces, steps[..j]) == Render(pieces, steps) && Contains(s, Braced(steps[j].name))
    ensures ReplaceAll(Print(pieces), steps) != Render(pieces, steps)
  {
    SequentialIsSimultaneous(pieces, steps[..j]);
    assert steps == steps[..j] + steps[j..];
    ReplaceAllConcat(Print(pieces), steps[..j], steps[j..]);
  }

  lemma RenderOne(name: string, steps: seq<Step>, value: string)
    requires Lookup(steps, name) == Some(value)
    ensures Render([Hole(name)], steps) == value
  {
    assert [Hole(name)][1..] == [] && value + "" == value;
  }

  lemma RenderAround(a: string, text: string, b: string, steps: seq<Step>, x: string, y: string)
    requires Lookup(steps, a) == Some(x) && Lookup(steps, b) == Some(y)
    ensures Render([Hole(a), Text(text), Hole(b)], steps) == x + (text + y)
  {
    var pieces := [Hole(a), Text(text), Hole(b)];
    assert pieces[1..] == [Text(text), Hole(b)] && pieces[1..][1..] == [Hole(b)];
    RenderOne(b, steps, y);
  }

  /** A value that holds the placeholder of a later step, in a template that is its hole. */
  lemma HeldShows(steps: seq<Step>, j: nat, i: nat) returns (pieces: seq<Piece>)
    requires i < j < |steps| && DistinctNames(steps) && (forall s <- steps :: Plain(s.name))
    requires Settled(steps[..j]) && NoReturn(steps, j) && Contains(steps[i].value, Braced(steps[j].name))
    ensures pieces == [Hole(steps[i].name)] && Print(pieces) == Braced(steps[i].name)
    ensures AllOk(pieces) && ReplaceAll(Print(pieces), steps) != Render(pieces, steps) == steps[i].value
  {
    pieces := [Hole(steps[i].name)];
    assert pieces[1..] == [] && Braced(steps[i].name) + "" == Braced(steps[i].name);
    LookupBefore(steps, j, i);
    RenderOne(steps[i].name, steps, steps[i].value);
    RenderOne(steps[i].name, steps[..j], steps[i].value);
    MeetingShows(pieces, steps, j, steps[i].value);
  }

  lemma CrossMakes(first: string, second: string, name: string) returns (text: string)
    requires Plain(name) && Cross(first, second, name)
    ensures Plain(text) && Contains(first + (text + second), Braced(name))
  {
    var b := Braced(name);
    var m, k :| 1 <= m <= k < |b| && m <= |first| && first[|first| - m..] == b[..m] && b[k..] <= second;
    text := b[m..k];
    assert text == name[m - 1..k - 1];
    MadeOf(first, second, b, m, k);
    ContainsAt(first + (text + second), b);
  }

  lemma MadeOf(first: string, second: string, b: string, m: nat, k: nat)
    requires m <= k < |b| && m <= |first| && first[|first| - m..] == b[..m] && b[k..] <= second
    ensures b <= (first + (b[m..k] + second))[|first| - m..]
  {
    var s := (first + (b[m..k] + second))[|first| - m..];
    assert s == first[|first| - m..] + (b[m..k] + second);
    assert s[..m] == b[..m] && s[m..k] == b[m..k] && s[k..] == second;
    assert second[..|b| - k] == b[k..];
    forall i | 0 <= i < |b| ensures s[i] == b[i] {
      if i < m {
        assert s[i] == s[..m][i];
      } else if i < k {
        assert s[i] == s[m..k][i - m];
      } else {
        assert s[i] == s[k..][i - k] == b[k..][i - k];
      }
    }
  }

  /** Two values that make the placeholder of a later step, in a template of their holes. */
  lemma MadeShows(steps: seq<Step>, j: nat, h: nat, i: nat) returns (pieces: seq<Piece>)
    requires h < j && i < j < |steps| && DistinctNames(steps) && (forall s <- steps :: Plain(s.name))
    requires Settled(steps[..j]) && NoReturn(steps, j) && Cross(steps[h].value, steps[i].value, steps[j].name)
    ensures AllOk(pieces) && ReplaceAll(Print(pieces), steps) != Render(pieces, steps)
  {
    var x, y := steps[h], steps[i];
    var text := CrossMakes(x.value, y.value, steps[j].name);
    pieces := [Hole(x.name), Text(text), Hole(y.name)];
    LookupBefore(steps, j, h);
    LookupBefore(steps, j, i);
    RenderAround(x.name, text, y.name, steps, x.value, y.value);
    RenderAround(x.name, text, y.name, steps[..j], x.value, y.value);
    MeetingShows(pieces, steps, j, x.value + (text + y.value));
  }

  /** The chain fills every template as if at once exactly if it is settled, provided that a
      step that fills something but its hole is not undone by those after it. */
  lemma SequentialExactly(steps: seq<Step>)
    requires DistinctNames(steps) && forall s <- steps :: Plain(s.name)
    requires forall j | 0 <= j < |steps| && steps[j].value != Braced(steps[j].name) && !Apart(steps, j) ::
      NoReturn(steps, j)
    ensures AlwaysSimultaneous(steps) <==> Settled(steps)
  {
    if Settled(steps) {
      forall pieces | AllOk(pieces) ensures ReplaceAll(Print(pieces), steps) == Render(pieces, steps) {
        SequentialIsSimultaneous(pieces, steps);
      }
    } else {
      var j := FirstMeeting(steps);
      if i :| 0 <= i < j && Contains(steps[i].value, Braced(steps[j].name)) {
        var pieces := HeldShows(steps, j, i);
      } else {
        var h, i :| 0 <= h < j && 0 <= i < j && Cross(steps[h].value, steps[i].value, steps[j].name);
        var pieces := MadeShows(steps, j, h, i);
      }
    }
  }

  // ---------- Values in quotes ----------

  /** A value that has no opening brace, or ends in a quote, as a list of indicators does. */
  predicate Mild(value: string) {
    '{' !in value || value[|value| - 1] == '"'
  }

  predicate MildSteps(steps: seq<Step>) {
    forall s <- steps :: Plain(s.name) && '"' !in s.name && Mild(s.value)
  }

  /** No value contains a placeholder that is filled after it. */
  predicate NoneLater(steps: seq<Step>) {
    forall i, j | 0 <= i < j < |steps| :: !Contains(steps[i].value, Braced(steps[j].name))
  }

  lemma MildDoesNotCross(first: string, second: string, name: string)
    requires Mild(first) && '"' !in name
    ensures !Cross(first, second, name)
  {
    CrossNeedsBraces(first, second, name);
  }

  /** For such values it only matters what they contain. */
  lemma MildIsSettled(steps: seq<Step>)
    requires MildSteps(steps)
    ensures Settled(steps) <==> NoneLater(steps)
  {
    forall j | 0 <= j < |steps| ensures steps[j].value != Braced(steps[j].name) {
      var v, name := steps[j].value, steps[j].name;
      assert steps[j] in steps && Braced(name)[0] == '{' && Braced(name)[|Braced(name)| - 1] == '}';
    }
    forall h, i, j | 0 <= h < j < |steps| && 0 <= i < j
      ensures !Cross(steps[h].value, steps[i].value, steps[j].name)
    {
      assert steps[h] in steps && steps[j] in steps;
      MildDoesNotCross(steps[h].value, steps[i].value, steps[j].name);
    }
    if NoneLater(steps) {
      forall j | 0 <= j < |steps| ensures Apart(steps, j) {}
    }
    if Settled(steps) {
      forall i, j | 0 <= i < j < |steps| ensures !Contains(steps[i].value, Braced(steps[j].name)) {
        assert Apart(steps, j);
      }
    }
  }

  /** A replacement that finds something leaves a mark: more quotes, or fewer braces. */
  predicate Marked(before: string, after: string) {
    Count(after, '"') > Count(before, '"')
    || (Count(after, '"') == Count(before, '"') && Count(after, '{') < Count(before, '{'))
  }

  lemma BracedCounts(name: string)
    requires Plain(name) && '"' !in name
    ensures Count(Braced(name), '"') == 0 && Count(Braced(name), '{') == 1
  {
    CountNone(Braced(name), '"');
    assert Braced(name)[1..] == name + "}";
    CountNone(name + "}", '{');
  }

  lemma ReplaceMarks(s: string, step: Step)
    requires Plain(step.name) && '"' !in step.name && Mild(step.value)
    ensures var r := Replace(s, Braced(step.name), step.value);
      if Contains(s, Braced(step.name)) then Marked(s, r) else r == s
  {
    var pattern := Braced(step.name);
    BracedCounts(step.name);
    CountNone(step.value, '"');
    CountNone(step.value, '{');
    if Contains(s, pattern) {
      ReplaceAdds(s, pattern, step.value, '"');
      if '"' !in step.value {
        ReplaceRemoves(s, pattern, step.value, '"');
        ReplaceRemoves(s, pattern, step.value, '{');
      }
    } else {
      ReplaceAbsent(s, pattern, step.value);
    }
  }

  /** A text survives the chain exactly if it has none of its placeholders. */
  lemma {:induction false} SurvivesExactly(s: string, steps: seq<Step>)
    requires MildSteps(steps)
    ensures ReplaceAll(s, steps) == s || Marked(s, ReplaceAll(s, steps))
    ensures ReplaceAll(s, steps) == s <==> forall step <- steps :: !Contains(s, Braced(step.name))
    decreases |steps|
  {
    if steps != [] {
      assert steps[0] in steps && (forall t <- steps[1..] :: t in steps) && steps == [steps[0]] + steps[1..];
      ReplaceMarks(s, steps[0]);
      SurvivesExactly(Replace(s, Braced(steps[0].name), steps[0].value), steps[1..]);
    }
  }

  lemma MildNoReturn(steps: seq<Step>, j: nat)
    requires MildSteps(steps) && j < |steps|
    ensures NoReturn(steps, j)
  {
    var rest := steps[j..];
    assert rest[0] == steps[j] && forall s <- rest :: s in steps;
    forall s | Contains(s, Braced(steps[j].name)) ensures ReplaceAll(s, rest) != s { SurvivesExactly(s, rest); }
  }

  /** So with mild values, the chain fills every template as if at once exactly if no value
      contains a placeholder that is filled after it. */
  lemma MildExactly(steps: seq<Step>)
    requires MildSteps(steps) && DistinctNames(steps)
    ensures AlwaysSimultaneous(steps) <==> NoneLater(steps)
  {
    forall j | 0 <= j < |steps| ensures NoReturn(steps, j) { MildNoReturn(steps, j); }
    SequentialExactly(steps);
    MildIsSettled(steps);
  }

  // ---------- Other values before values in quotes ----------

  predicate QuotedSteps(steps: seq<Step>) {
    forall s <- steps :: Plain(s.name) && '"' !in s.name && '"' in s.value
  }

  lemma NamesHaveNoQuotes(name: string, value: string)
    requires '"' !in name
    ensures Count(Braced(name), '"') == 0 && (Count(value, '"') > 0 <==> '"' in value)
  {
    CountNone(Braced(name), '"');
    CountNone(value, '"');
  }

  lemma {:induction false} QuotesStay(s: string, steps: seq<Step>)
    requires forall t <- steps :: '"' !in t.name
    ensures Count(ReplaceAll(s, steps), '"') >= Count(s, '"')
    decreases |steps|
  {
    if steps != [] {
      var t := steps[0];
      assert t in steps && forall u <- steps[1..] :: u in steps;
      NamesHaveNoQuotes(t.name, t.value);
      ReplaceAdds(s, Braced(t.name), t.value, '"');
      QuotesStay(Replace(s, Braced(t.name), t.value), steps[1..]);
    }
  }

  /** Each of them that fills something adds quotes. */
  lemma {:induction false} QuotedAdd(s: string, steps: seq<Step>)
    requires QuotedSteps(steps)
    ensures ReplaceAll(s, steps) == s || Count(ReplaceAll(s, steps), '"') > Count(s, '"')
    decreases |steps|
  {
    if steps != [] {
      var t := steps[0];
      assert t in steps && forall u <- steps[1..] :: u in steps;
      NamesHaveNoQuotes(t.name, t.value);
      ReplaceAdds(s, Braced(t.name), t.value, '"');
      if !Contains(s, Braced(t.name)) { ReplaceAbsent(s, Braced(t.name), t.value); }
      QuotedAdd(Replace(s, Braced(t.name), t.value), steps[1..]);
    }
  }

  lemma QuotedNoReturn(steps: seq<Step>, j: nat)
    requires j < |steps| && (forall t <- steps :: '"' !in t.name) && '"' in steps[j].value
    ensures NoReturn(steps, j)
  {
    var t, rest := steps[j], steps[j + 1..];
    assert t in steps && steps[j..][0] == t && steps[j..][1..] == rest && forall u <- rest :: u in steps;
    NamesHaveNoQuotes(t.name, t.value);
    forall s | Contains(s, Braced(t.name)) ensures ReplaceAll(s, steps[j..]) != s {
      ReplaceAdds(s, Braced(t.name), t.value, '"');
      QuotesStay(Replace(s, Braced(t.name), t.value), rest);
    }
  }

  /** A change that only values in quotes follow stays. */
  lemma BeforeQuotedNoReturn(steps: seq<Step>, j: nat)
    requires j < |steps| && steps[j].value != Braced(steps[j].name) && '"' !in steps[j].name
    requires QuotedSteps(steps[j + 1..])
    ensures NoReturn(steps, j)
  {
    var t, rest := steps[j], steps[j + 1..];
    assert steps[j..][0] == t && steps[j..][1..] == rest;
    NamesHaveNoQuotes(t.name, t.value);
    forall s | Contains(s, Braced(t.name)) ensures ReplaceAll(s, steps[j..]) != s {
      ReplaceAdds(s, Braced(t.name), t.value, '"');
      ReplaceChanges(s, Braced(t.name), t.value);
      QuotedAdd(Replace(s, Braced(t.name), t.value), rest);
    }
  }

  /** One value put for two placeholders cannot undo itself, if a character occurs once in the
      first of them and not in the second. */
  lemma TwiceChanges(s: string, p: string, q: string, v: string, c: char)
    requires p != "" && q != "" && v != p && Count(p, c) == 1 && Count(q, c) == 0 && Contains(s, p)
    ensures Replace(Replace(s, p, v), q, v) != s
  {
    var r := Replace(s, p, v);
    ReplaceChanges(s, p, v);
    if Contains(r, q) {
      if Count(v, c) >= 1 {
        ReplaceAdds(s, p, v, c);
        ReplaceAdds(r, q, v, c);
      } else {
        ReplaceRemoves(s, p, v, c);
        ReplaceRemoves(r, q, v, c);
      }
    } else {
      ReplaceAbsent(r, q, v);
    }
  }

  lemma TwiceNoReturn(steps: seq<Step>, j: nat, c: char)
    requires j + 1 < |steps| && steps[j].value == steps[j + 1].value != Braced(steps[j].name)
    requires '"' !in steps[j].name && '"' !in steps[j + 1].name && QuotedSteps(steps[j + 2..])
    requires Count(Braced(steps[j].name), c) == 1 && Count(Braced(steps[j + 1].name), c) == 0
    ensures NoReturn(steps, j)
  {
    var p, q, v, rest := Braced(steps[j].name), Braced(steps[j + 1].name), steps[j].value, steps[j + 2..];
    assert steps[j..][0] == steps[j] && steps[j..][1..][0] == steps[j + 1] && steps[j..][1..][1..] == rest;
    NamesHaveNoQuotes(steps[j].name, v);
    NamesHaveNoQuotes(steps[j + 1].name, v);
    forall s | Contains(s, p) ensures ReplaceAll(s, steps[j..]) != s {
      ReplaceAdds(s, p, v, '"');
      ReplaceAdds(Replace(s, p, v), q, v, '"');
      TwiceChanges(s, p, q, v, c);
      QuotedAdd(Replace(Replace(s, p, v), q, v), rest);
    }
  }

  // ---------- Nothing left ----------

  predicate Covers(steps: seq<Step>, pieces: seq<Piece>) {
    forall p <- pieces | p.Hole? :: Lookup(steps, p.name).Some?
  }

  lemma {:induction false} LookupPlain(steps: seq<Step>, name: string)
    requires PlainSteps(steps) && Lookup(steps, name).Some?
    ensures Plain(Lookup(steps, name).value)
  {
    assert steps[0] in steps && forall s <- steps[1..] :: s in steps;
    if steps[0].name != name { LookupPlain(steps[1..], name); }
  }

  /** No placeholder is left when each has a value. */
  lemma {:induction false} NothingLeft(pieces: seq<Piece>, steps: seq<Step>)
    requires AllOk(pieces) && PlainSteps(steps) && Covers(steps, pieces)
    ensures Plain(Render(pieces, steps))
  {
    if pieces != [] {
      assert pieces[0] in pieces && forall p <- pieces[1..] :: p in pieces;
      NothingLeft(pieces[1..], steps);
      if pieces[0].Hole? { LookupPlain(steps, pieces[0].name); }
    }
  }

  // ---------- Which templates this covers ----------

  lemma {:induction false} ParseText(text: string, rest: string)
    requires Plain(text) && Parse(rest).Some?
    ensures Parse(text + rest).Some?
    decreases |text|
  {
    if text == "" {
      assert text + rest == rest;
    } else {
      assert text[0] in text && forall c <- text[1..] :: c in text;
      ParseText(text[1..], rest);
      assert (text + rest)[1..] == text[1..] + rest;
    }
  }

  lemma ParseHole(name: string, rest: string)
    requires Plain(name) && Parse(rest).Some?
    ensures Parse(Braced(name) + rest).Some?
  {
    BeforeBraceOfName(name, rest);
    var s := Braced(name) + rest;
    var tail := "}" + rest;
    assert s[0] == '{' && s[1..] == name + tail;
    assert s[1..][|name|..] == tail && tail[0] == '}' && tail[1..] == rest;
  }

  /** Every template printed from pieces is read back: with `ParsePrints`, the templates
      that can be read are exactly those whose braces only delimit placeholders. */
  lemma {:induction false} PrintParses(pieces: seq<Piece>)
    requires AllOk(pieces)
    ensures Parse(Print(pieces)).Some?
  {
    if pieces != [] {
      assert pieces[0] in pieces && forall p <- pieces[1..] :: p in pieces;
      var rest := Print(pieces[1..]);
      PrintParses(pieces[1..]);
      match pieces[0] {
        case Text(t) => ParseText(t, rest);
        case Hole(name) => ParseHole(name, rest);
      }
    }
  }
}
