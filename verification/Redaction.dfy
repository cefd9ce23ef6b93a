/** Redaction of JSON values before they are logged: the values of sensitive fields are
    masked, texts that match a sensitive pattern are masked, long texts and long lists are
    cut, and nesting is bounded.

    `RedactionRevealsExactly` says what an observer of the output can tell about the
    input; `Noninterference` follows: what stands below sensitive fields is not among it.
    Both hold for every test of field names and texts. */
module Redaction {
  import opened Options

  datatype Json = Null | Scalar(text: string) | List(items: seq<Json>) | Dict(fields: map<string, Json>)

  const REDACTED := "***REDACTED***"
  const MAX_LENGTH := 100
  const MAX_ITEMS := 50

  /** `sensitive` tests field names (`SensitiveFields.IsSensitiveField`), `suspicious` is
      the pattern search over texts. */
  datatype Policy = Policy(sensitive: string -> bool, suspicious: string -> bool, maxDepth: int)

  // ---------- Values ----------

  function Digits(n: nat): string {
    if n < 10 then [n as char + '0'] else Digits(n / 10) + [(n % 10) as char + '0']
  }

  function Text(v: Json): string
    requires v.Null? || v.Scalar?
  {
    if v.Null? then "null" else v.text
  }

  /** `redact_value`. */
  function RedactValue(v: Json, p: Policy): string
    requires v.Null? || v.Scalar?
  {
    if v.Null? then "null"
    else if p.suspicious(v.text) then REDACTED
    else if |v.text| > MAX_LENGTH then v.text[..MAX_LENGTH] + "...[truncated]"
    else v.text
  }

  function TooDeep(v: Json): Json
    requires v.List? || v.Dict?
  {
    if v.List? then List([Scalar("_truncated: max depth exceeded")])
    else Dict(map["_truncated" := Scalar("max depth exceeded")])
  }

  function Shown(n: nat): nat {
    if n < MAX_ITEMS then n else MAX_ITEMS
  }

  function Rest(n: nat): seq<Json> {
    if n > MAX_ITEMS then [Scalar("...[" + Digits(n - MAX_ITEMS) + " more items truncated]")] else []
  }

  /** The value as it comes out at nesting depth `depth`. */
  function Redact(v: Json, depth: int, p: Policy): Json
    decreases v
  {
    match v
    case Null => Scalar("null")
    case Scalar(_) => Scalar(RedactValue(v, p))
    case List(items) =>
      if depth > p.maxDepth then TooDeep(v)
      else
        List(seq(Shown(|items|), i requires 0 <= i < Shown(|items|) =>
          Redact(items[i], depth + 1, p)) + Rest(|items|))
    case Dict(fields) =>
      if depth > p.maxDepth then TooDeep(v)
      else
        Dict(map k | k in fields ::
          if p.sensitive(k) then Scalar(REDACTED) else Redact(fields[k], depth + 1, p))
  }

  method RedactDict(fields: map<string, Json>, depth: int, p: Policy)
    returns (result: map<string, Json>)
    ensures Dict(result) == Redact(Dict(fields), depth, p)
    decreases Dict(fields)
  {
    if depth > p.maxDepth {
      return map["_truncated" := Scalar("max depth exceeded")];
    }
    result := map[];
    ghost var expected := Redact(Dict(fields), depth, p).fields;
    var rest := fields.Keys;
    while rest != {}
      invariant rest <= fields.Keys && result.Keys == fields.Keys - rest
      invariant forall k <- result :: result[k] == expected[k]
    {
      var key :| key in rest;
      var value := fields[key];
      rest := rest - {key};
      assert expected[key] == if p.sensitive(key) then Scalar(REDACTED) else Redact(value, depth + 1, p);
      if p.sensitive(key) {
        result := result[key := Scalar(REDACTED)];
        continue;
      }
      match value {
        case Dict(inner) =>
          var r := RedactDict(inner, depth + 1, p);
          result := result[key := Dict(r)];
        case List(inner) =>
          var r := RedactList(inner, depth + 1, p);
          result := result[key := List(r)];
        case _ =>
          result := result[key := Scalar(RedactValue(value, p))];
      }
    }
    assert result == expected;
  }

  method RedactList(items: seq<Json>, depth: int, p: Policy)
    returns (result: seq<Json>)
    ensures List(result) == Redact(List(items), depth, p)
    decreases List(items)
  {
    if depth > p.maxDepth {
      return [Scalar("_truncated: max depth exceeded")];
    }
    result := [];
    ghost var expected := Redact(List(items), depth, p).items;
    for i := 0 to Shown(|items|)
      invariant |result| == i && result == expected[..i]
    {
      assert expected[i] == Redact(items[i], depth + 1, p);
      assert expected[..i + 1] == expected[..i] + [expected[i]];
      match items[i] {
        case Dict(inner) =>
          var r := RedactDict(inner, depth + 1, p);
          result := result + [Dict(r)];
        case List(inner) =>
          var r := RedactList(inner, depth + 1, p);
          result := result + [List(r)];
        case _ =>
          result := result + [Scalar(RedactValue(items[i], p))];
      }
    }
    if |items| > MAX_ITEMS {
      result := result + [Scalar("...[" + Digits(|items| - MAX_ITEMS) + " more items truncated]")];
    }
  }

  // ---------- What the output reveals ----------

  /** The text comes out as the placeholder. */
  predicate Masked(s: string, p: Policy) {
    p.suspicious(s) || s == REDACTED
  }

  /** Two texts an observer cannot tell apart. */
  predicate SameView(x: Json, y: Json, p: Policy)
    requires (x.Null? || x.Scalar?) && (y.Null? || y.Scalar?)
  {
    var s, t := Text(x), Text(y);
    var sMasked, tMasked := x.Scalar? && Masked(s, p), y.Scalar? && Masked(t, p);
    if sMasked || tMasked then sMasked && tMasked
    else s == t || (|s| > MAX_LENGTH && |t| > MAX_LENGTH && s[..MAX_LENGTH] == t[..MAX_LENGTH])
  }

  /** Two values an observer of the output cannot tell apart: containers of one kind that
      are too deep, or that agree in their size and in all that is shown of them. */
  predicate Indistinguishable(a: Json, b: Json, depth: int, p: Policy)
    decreases a
  {
    if a.List? && b.List? then
      depth > p.maxDepth || (
        && |a.items| == |b.items|
        && forall i | 0 <= i < Shown(|a.items|) :: Indistinguishable(a.items[i], b.items[i], depth + 1, p))
    else if a.Dict? && b.Dict? then
      depth > p.maxDepth || (
        && a.fields.Keys == b.fields.Keys
        && forall k <- a.fields | !p.sensitive(k) :: Indistinguishable(a.fields[k], b.fields[k], depth + 1, p))
    else
      (a.Null? || a.Scalar?) && (b.Null? || b.Scalar?) && SameView(a, b, p)
  }

  lemma ValuesRevealed(x: Json, y: Json, p: Policy)
    requires (x.Null? || x.Scalar?) && (y.Null? || y.Scalar?)
    ensures RedactValue(x, p) == RedactValue(y, p) <==> SameView(x, y, p)
  {
    var s, t := RedactValue(x, p), RedactValue(y, p);
    if |Text(x)| > MAX_LENGTH && !Masked(Text(x), p) { assert s[..MAX_LENGTH] == Text(x)[..MAX_LENGTH]; }
    if |Text(y)| > MAX_LENGTH && !Masked(Text(y), p) { assert t[..MAX_LENGTH] == Text(y)[..MAX_LENGTH]; }
  }

  lemma {:induction false} DigitsInjective(m: nat, n: nat)
    requires Digits(m) == Digits(n)
    ensures m == n
    decreases m
  {
    if m >= 10 && n >= 10 {
      var p, q := Digits(m / 10), Digits(n / 10);
      assert Digits(m)[..|p|] == p && Digits(n)[..|q|] == q;
      DigitsInjective(m / 10, n / 10);
      assert Digits(m)[|p|] == Digits(n)[|p|];
    }
  }

  lemma RestInjective(m: nat, n: nat)
    requires Shown(m) == Shown(n) && Rest(m) == Rest(n)
    ensures m == n
  {
    if m > MAX_ITEMS && n > MAX_ITEMS {
      var s, t := Digits(m - MAX_ITEMS), Digits(n - MAX_ITEMS);
      var u, v := Rest(m)[0].text, Rest(n)[0].text;
      var tail := " more items truncated]";
      assert u == "...[" + s + tail && v == "...[" + t + tail;
      assert u[4..|u| - |tail|] == s && v[4..|v| - |tail|] == t;
      DigitsInjective(m - MAX_ITEMS, n - MAX_ITEMS);
    }
  }

  lemma {:induction false} ListsRevealed(a: Json, b: Json, depth: int, p: Policy)
    requires a.List? && b.List? && depth <= p.maxDepth
    requires forall i | 0 <= i < Shown(|a.items|) && i < |b.items| ::
      Redact(a.items[i], depth + 1, p) == Redact(b.items[i], depth + 1, p) <==>
      Indistinguishable(a.items[i], b.items[i], depth + 1, p)
    ensures Redact(a, depth, p) == Redact(b, depth, p) <==> Indistinguishable(a, b, depth, p)
  {
    var m, n := |a.items|, |b.items|;
    var x, y := Redact(a, depth, p).items, Redact(b, depth, p).items;
    assert |x| == Shown(m) + |Rest(m)| && |y| == Shown(n) + |Rest(n)|;
    assert x[Shown(m)..] == Rest(m) && y[Shown(n)..] == Rest(n);
    assert forall i | 0 <= i < Shown(m) :: x[i] == Redact(a.items[i], depth + 1, p);
    assert forall i | 0 <= i < Shown(n) :: y[i] == Redact(b.items[i], depth + 1, p);
    if x == y {
      RestInjective(m, n);
      forall i | 0 <= i < Shown(m) ensures Indistinguishable(a.items[i], b.items[i], depth + 1, p) {
        assert x[i] == y[i];
      }
    }
    if Indistinguishable(a, b, depth, p) {
      forall i | 0 <= i < |x| ensures x[i] == y[i] {
        if i < Shown(m) {
          assert Indistinguishable(a.items[i], b.items[i], depth + 1, p);
        }
      }
      assert x == y;
    }
  }

  lemma {:induction false} DictsRevealed(a: Json, b: Json, depth: int, p: Policy)
    requires a.Dict? && b.Dict? && depth <= p.maxDepth
    requires forall k <- a.fields | k in b.fields ::
      Redact(a.fields[k], depth + 1, p) == Redact(b.fields[k], depth + 1, p) <==>
      Indistinguishable(a.fields[k], b.fields[k], depth + 1, p)
    ensures Redact(a, depth, p) == Redact(b, depth, p) <==> Indistinguishable(a, b, depth, p)
  {
    var x, y := Redact(a, depth, p).fields, Redact(b, depth, p).fields;
    assert x.Keys == a.fields.Keys && y.Keys == b.fields.Keys;
    if x == y {
      forall k <- a.fields | !p.sensitive(k) ensures Indistinguishable(a.fields[k], b.fields[k], depth + 1, p) {
        assert x[k] == y[k];
      }
    }
    if Indistinguishable(a, b, depth, p) {
      assert x == y;
    }
  }

  /** Two values come out alike exactly when they are indistinguishable. */
  lemma {:induction false} RedactionRevealsExactly(a: Json, b: Json, depth: int, p: Policy)
    ensures Redact(a, depth, p) == Redact(b, depth, p) <==> Indistinguishable(a, b, depth, p)
    decreases a
  {
    if a.List? && b.List? && depth <= p.maxDepth {
      forall i | 0 <= i < |a.items| && i < |b.items|
        ensures Redact(a.items[i], depth + 1, p) == Redact(b.items[i], depth + 1, p) <==>
          Indistinguishable(a.items[i], b.items[i], depth + 1, p)
      {
        RedactionRevealsExactly(a.items[i], b.items[i], depth + 1, p);
      }
      ListsRevealed(a, b, depth, p);
    } else if a.Dict? && b.Dict? && depth <= p.maxDepth {
      forall k <- a.fields | k in b.fields
        ensures Redact(a.fields[k], depth + 1, p) == Redact(b.fields[k], depth + 1, p) <==>
          Indistinguishable(a.fields[k], b.fields[k], depth + 1, p)
      {
        RedactionRevealsExactly(a.fields[k], b.fields[k], depth + 1, p);
      }
      DictsRevealed(a, b, depth, p);
    } else if (a.Null? || a.Scalar?) && (b.Null? || b.Scalar?) {
      ValuesRevealed(a, b, p);
    }
  }

  /** The values differ only in what stands below sensitive fields, at any depth. */
  predicate DifferOnlyInSecrets(a: Json, b: Json, p: Policy)
    decreases a
  {
    if a.List? && b.List? then
      |a.items| == |b.items| && forall i | 0 <= i < |a.items| :: DifferOnlyInSecrets(a.items[i], b.items[i], p)
    else if a.Dict? && b.Dict? then
      && a.fields.Keys == b.fields.Keys
      && forall k <- a.fields | !p.sensitive(k) :: DifferOnlyInSecrets(a.fields[k], b.fields[k], p)
    else
      a == b
  }

  lemma {:induction false} SecretsAreIndistinguishable(a: Json, b: Json, depth: int, p: Policy)
    requires DifferOnlyInSecrets(a, b, p)
    ensures Indistinguishable(a, b, depth, p)
    decreases a
  {
    if a.List? && b.List? && depth <= p.maxDepth {
      forall i | 0 <= i < Shown(|a.items|) ensures Indistinguishable(a.items[i], b.items[i], depth + 1, p) {
        SecretsAreIndistinguishable(a.items[i], b.items[i], depth + 1, p);
      }
    } else if a.Dict? && b.Dict? && depth <= p.maxDepth {
      forall k <- a.fields | !p.sensitive(k) ensures Indistinguishable(a.fields[k], b.fields[k], depth + 1, p) {
        SecretsAreIndistinguishable(a.fields[k], b.fields[k], depth + 1, p);
      }
    }
  }

  /** What stands below sensitive fields has no influence on the output. */
  lemma {:induction false} Noninterference(a: Json, b: Json, depth: int, p: Policy)
    requires DifferOnlyInSecrets(a, b, p)
    ensures Redact(a, depth, p) == Redact(b, depth, p)
  {
    SecretsAreIndistinguishable(a, b, depth, p);
    RedactionRevealsExactly(a, b, depth, p);
  }

  // ---------- What the output looks like ----------

  /** Every sensitive field, however deep, holds the placeholder. */
  predicate SecretsMasked(v: Json, p: Policy)
    decreases v
  {
    match v
    case List(items) => forall i | 0 <= i < |items| :: SecretsMasked(items[i], p)
    case Dict(fields) =>
      forall k <- fields :: if p.sensitive(k) then fields[k] == Scalar(REDACTED) else SecretsMasked(fields[k], p)
    case _ => true
  }

  /** At most `levels` containers are nested, and no list has more than 51 entries. */
  predicate Bounded(v: Json, levels: int)
    decreases v
  {
    match v
    case List(items) =>
      levels > 0 && |items| <= MAX_ITEMS + 1 && forall i | 0 <= i < |items| :: Bounded(items[i], levels - 1)
    case Dict(fields) => levels > 0 && forall k <- fields :: Bounded(fields[k], levels - 1)
    case _ => true
  }

  /** The levels left below `depth`: one more container is shown as cut off. */
  function Levels(depth: int, p: Policy): int {
    if depth > p.maxDepth then 1 else p.maxDepth - depth + 2
  }

  lemma {:induction false} RedactionMasksAndBounds(v: Json, depth: int, p: Policy)
    requires !p.sensitive("_truncated")
    ensures SecretsMasked(Redact(v, depth, p), p)
    ensures Bounded(Redact(v, depth, p), Levels(depth, p))
    decreases v
  {
    var r := Redact(v, depth, p);
    match v {
      case List(items) =>
        if depth <= p.maxDepth {
          forall i | 0 <= i < |r.items|
            ensures SecretsMasked(r.items[i], p) && Bounded(r.items[i], Levels(depth, p) - 1)
          {
            if i < Shown(|items|) {
              assert r.items[i] == Redact(items[i], depth + 1, p);
              RedactionMasksAndBounds(items[i], depth + 1, p);
            }
          }
        }
      case Dict(fields) =>
        if depth <= p.maxDepth {
          forall k <- fields | !p.sensitive(k)
            ensures SecretsMasked(r.fields[k], p) && Bounded(r.fields[k], Levels(depth, p) - 1)
          {
            RedactionMasksAndBounds(fields[k], depth + 1, p);
          }
        }
      case _ =>
    }
  }

  // ---------- Where things stand ----------

  datatype Part = Key(name: string) | Index(at: nat)

  function At(v: Json, path: seq<Part>): Option<Json>
    decreases |path|
  {
    if path == [] then Some(v)
    else
      match (v, path[0])
      case (Dict(fields), Key(k)) => if k in fields then At(fields[k], path[1..]) else None
      case (List(items), Index(i)) => if i < |items| then At(items[i], path[1..]) else None
      case _ => None
  }

  /** The path leads through no sensitive field and no item after the first 50. */
  predicate Visible(path: seq<Part>, p: Policy) {
    forall part <- path :: match part
      case Key(k) => !p.sensitive(k)
      case Index(i) => i < MAX_ITEMS
  }

  /** What a visible path leads to within the depth comes out, redacted, where it stood. */
  lemma {:induction false} ShownWhereItStood(v: Json, path: seq<Part>, depth: int, p: Policy)
    requires At(v, path).Some? && Visible(path, p) && depth + |path| <= p.maxDepth + 1
    ensures At(Redact(v, depth, p), path) == Some(Redact(At(v, path).value, depth + |path|, p))
    decreases |path|
  {
    if path != [] {
      assert path[0] in path && forall part <- path[1..] :: part in path;
      match path[0] {
        case Key(k) =>
          assert Redact(v, depth, p).fields[k] == Redact(v.fields[k], depth + 1, p);
          ShownWhereItStood(v.fields[k], path[1..], depth + 1, p);
        case Index(i) =>
          assert Redact(v, depth, p).items[i] == Redact(v.items[i], depth + 1, p);
          ShownWhereItStood(v.items[i], path[1..], depth + 1, p);
      }
    }
  }

  // ---------- What exactly comes out ----------

  /** The number a text of decimal digits stands for. */
  function Number(digits: string): int {
    if digits == "" then 0 else 10 * Number(digits[..|digits| - 1]) + (digits[|digits| - 1] as int - '0' as int)
  }

  /** The decimal digits of a positive number. */
  predicate Writes(digits: string, n: int) {
    digits != "" && digits[0] != '0' && Number(digits) == n && forall c <- digits :: '0' <= c <= '9'
  }

  function MoreItems(digits: string): Json {
    Scalar("...[" + digits + " more items truncated]")
  }

  lemma {:induction false} DigitsAreNumber(n: nat)
    requires n > 0
    ensures Writes(Digits(n), n)
  {
    if n < 10 {
      assert Digits(n)[..0] == "";
    } else {
      DigitsAreNumber(n / 10);
      assert Digits(n)[..|Digits(n)| - 1] == Digits(n / 10);
    }
  }

  /** What is found where a value `v` stood, above the depth bound: of texts the placeholder,
      the text itself or its first 100 characters; of lists the first 50 items and how many
      more there were; of dictionaries every field. */
  ghost predicate Shows(out: Json, v: Json, p: Policy) {
    match v
    case Null => out == Scalar("null")
    case Scalar(text) =>
      && (p.suspicious(text) ==> out == Scalar("***REDACTED***"))
      && (!p.suspicious(text) && |text| <= 100 ==> out == v)
      && (!p.suspicious(text) && |text| > 100 ==> out == Scalar(text[..100] + "...[truncated]"))
    case List(items) =>
      && out.List?
      && (|items| <= 50 ==> |out.items| == |items|)
      && (|items| > 50 ==> |out.items| == 51)
      && (|items| > 50 ==> exists d :: Writes(d, |items| - 50) && out.items[50] == MoreItems(d))
    case Dict(fields) =>
      && out.Dict? && out.fields.Keys == fields.Keys
      && forall k <- fields | p.sensitive(k) :: out.fields[k] == Scalar("***REDACTED***")
  }

  /** And of a list or a dictionary below that bound. */
  predicate ShowsCut(out: Json, v: Json) {
    match v
    case List(_) => out == List([Scalar("_truncated: max depth exceeded")])
    case Dict(_) => out == Dict(map["_truncated" := Scalar("max depth exceeded")])
    case _ => true
  }

  lemma RedactShows(v: Json, depth: int, p: Policy)
    ensures depth <= p.maxDepth || v.Null? || v.Scalar? ==> Shows(Redact(v, depth, p), v, p)
    ensures depth > p.maxDepth ==> ShowsCut(Redact(v, depth, p), v)
  {
    if v.List? && depth <= p.maxDepth && |v.items| > MAX_ITEMS {
      var d := Digits(|v.items| - MAX_ITEMS);
      DigitsAreNumber(|v.items| - MAX_ITEMS);
      assert Writes(d, |v.items| - 50) && Redact(v, depth, p).items[50] == Rest(|v.items|)[0] == MoreItems(d);
    }
  }

  /** Along every visible path, what comes out where a value stood shows that value. */
  lemma ShownAsItWas(v: Json, path: seq<Part>, depth: int, p: Policy)
    requires At(v, path).Some? && Visible(path, p) && depth + |path| <= p.maxDepth + 1
    ensures var out, was := At(Redact(v, depth, p), path), At(v, path).value;
      && out.Some?
      && (depth + |path| <= p.maxDepth || was.Null? || was.Scalar? ==> Shows(out.value, was, p))
      && (depth + |path| > p.maxDepth ==> ShowsCut(out.value, was))
  {
    ShownWhereItStood(v, path, depth, p);
    RedactShows(At(v, path).value, depth + |path|, p);
  }
}
