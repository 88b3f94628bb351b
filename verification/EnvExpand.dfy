/** One-pass expansion of `${VAR}` and `${VAR:-default}` in configuration text, with `$${` as the escape. */
module EnvExpand {
  import opened Wrappers

  type Environment = string -> Option<string>

  datatype ExpandError = Unclosed | NotSet(name: string)

  /** A reference opens at `i`. */
  predicate Opens(s: string, i: int) {
    0 <= i < |s| - 1 && s[i] == '$' && s[i + 1] == '{'
  }

  function FindOpen(s: string, from: nat): (r: Option<nat>)
    requires from <= |s|
    ensures r.Some? ==> from <= r.value && Opens(s, r.value)
    decreases |s| - from
  {
    if from == |s| then None else if Opens(s, from) then Some(from) else FindOpen(s, from + 1)
  }

  /** It finds the first one. */
  lemma {:induction false} FindOpenIff(s: string, from: nat, i: nat)
    requires from <= |s|
    ensures FindOpen(s, from) == Some(i) <==> from <= i && Opens(s, i) && forall j :: from <= j < i ==> !Opens(s, j)
    ensures FindOpen(s, from) == None ==> forall j :: from <= j ==> !Opens(s, j)
    decreases |s| - from
  {
    if from < |s| && !Opens(s, from) {
      FindOpenIff(s, from + 1, i);
    }
  }

  function FindClose(s: string, from: nat): (r: Option<nat>)
    requires from <= |s|
    ensures r.Some? ==> from <= r.value < |s| && s[r.value] == '}'
    decreases |s| - from
  {
    if from == |s| then None else if s[from] == '}' then Some(from) else FindClose(s, from + 1)
  }

  lemma {:induction false} FindCloseIff(s: string, from: nat, i: nat)
    requires from <= |s|
    ensures FindClose(s, from) == Some(i)
      <==> from <= i < |s| && s[i] == '}' && forall j :: from <= j < i ==> s[j] != '}'
    decreases |s| - from
  {
    if from < |s| && s[from] != '}' {
      FindCloseIff(s, from + 1, i);
    }
  }

  predicate Separates(expr: string, i: int) {
    0 <= i < |expr| - 1 && expr[i] == ':' && expr[i + 1] == '-'
  }

  function FindDefault(expr: string, from: nat): (r: Option<nat>)
    requires from <= |expr|
    ensures r.Some? ==> from <= r.value && Separates(expr, r.value)
    decreases |expr| - from
  {
    if from == |expr| then None else if Separates(expr, from) then Some(from) else FindDefault(expr, from + 1)
  }

  lemma {:induction false} FindDefaultIff(expr: string, from: nat, i: nat)
    requires from <= |expr|
    ensures FindDefault(expr, from) == Some(i)
      <==> from <= i && Separates(expr, i) && forall j :: from <= j < i ==> !Separates(expr, j)
    decreases |expr| - from
  {
    if from < |expr| && !Separates(expr, from) {
      FindDefaultIff(expr, from + 1, i);
    }
  }

  /** What a reference stands for. */
  function ValueOf(env: Environment, expr: string): Result<string, ExpandError> {
    match FindDefault(expr, 0)
    case Some(sep) => Ok(match env(expr[..sep]) { case Some(v) => v case None => expr[sep + 2..] })
    case None => match env(expr) { case Some(v) => Ok(v) case None => Err(NotSet(expr)) }
  }

  // ----- the text as pieces, whatever the environment

  datatype Piece = Text(text: string) | Escaped | Ref(expr: string) | Broken(text: string)

  function Pieces(s: string): seq<Piece>
    decreases |s|
  {
    var opening := FindOpen(s, 0);
    if opening.None? then [Text(s)] else
      var i := opening.value;
      if i > 0 && s[i - 1] == '$' then [Text(s[..i - 1]), Escaped] + Pieces(s[i + 2..])
      else
        var close := FindClose(s, i);
        if close.None? then [Broken(s)]
        else [Text(s[..i]), Ref(s[i + 2..close.value])] + Pieces(s[close.value + 1..])
  }

  function Source(p: Piece): string {
    match p
    case Text(t) => t
    case Escaped => "$${"
    case Ref(expr) => "${" + expr + "}"
    case Broken(t) => t
  }

  function Unparse(ps: seq<Piece>): string {
    if ps == [] then "" else Source(ps[0]) + Unparse(ps[1..])
  }

  function Render(env: Environment, p: Piece): Result<string, ExpandError> {
    match p
    case Text(t) => Ok(t)
    case Escaped => Ok("${")
    case Ref(expr) => ValueOf(env, expr)
    case Broken(_) => Err(Unclosed)
  }

  function Prepend(t: string, r: Result<string, ExpandError>): Result<string, ExpandError> {
    match r
    case Err(e) => Err(e)
    case Ok(u) => Ok(t + u)
  }

  function Glue(first: Result<string, ExpandError>, rest: Result<string, ExpandError>): Result<string, ExpandError> {
    if first.Err? then first else Prepend(first.value, rest)
  }

  /** The pieces' values side by side, or the first error from the left. */
  function RenderAll(env: Environment, ps: seq<Piece>): Result<string, ExpandError> {
    if ps == [] then Ok("") else Glue(Render(env, ps[0]), RenderAll(env, ps[1..]))
  }

  // ----- the scanner

  lemma RenderOne(env: Environment, t: string)
    ensures RenderAll(env, [Text(t)]) == Ok(t)
  {
    assert [Text(t)][1..] == [];
    assert t + "" == t;
  }

  lemma RenderTwo(env: Environment, p: Piece, q: Piece, rest: seq<Piece>)
    ensures RenderAll(env, [p, q] + rest) == Glue(Render(env, p), Glue(Render(env, q), RenderAll(env, rest)))
    ensures Render(env, p).Ok? && Render(env, q).Ok? ==>
      RenderAll(env, [p, q] + rest) == Prepend(Render(env, p).value + Render(env, q).value, RenderAll(env, rest))
  {
    var ps := [p, q] + rest;
    assert ps[1..] == [q] + rest && ps[1..][1..] == rest;
    if Render(env, p).Ok? && Render(env, q).Ok? {
      PrependTwice(Render(env, p).value, Render(env, q).value, RenderAll(env, rest));
    }
  }

  lemma PrependNothing(r: Result<string, ExpandError>)
    ensures Prepend("", r) == r
  {
    if r.Ok? {
      assert "" + r.value == r.value;
    }
  }

  lemma PrependTwice(t: string, u: string, r: Result<string, ExpandError>)
    ensures Prepend(t, Prepend(u, r)) == Prepend(t + u, r)
  {
    if r.Ok? {
      assert t + (u + r.value) == (t + u) + r.value;
    }
  }

  lemma PastEscape(env: Environment, done: string, s: string, i: nat)
    requires FindOpen(s, 0) == Some(i) && i > 0 && s[i - 1] == '$'
    ensures Prepend(done, RenderAll(env, Pieces(s)))
      == Prepend(done + s[..i - 1] + "${", RenderAll(env, Pieces(s[i + 2..])))
  {
    var t, rest := s[..i - 1], s[i + 2..];
    RenderTwo(env, Text(t), Escaped, Pieces(rest));
    PrependTwice(done, t + "${", RenderAll(env, Pieces(rest)));
    assert done + (t + "${") == done + t + "${";
  }

  lemma ReferenceRenders(env: Environment, s: string, i: nat, end: nat)
    requires FindOpen(s, 0) == Some(i) && (i > 0 ==> s[i - 1] != '$')
    requires i + 2 <= end < |s| && FindClose(s, i) == Some(end)
    ensures var value := ValueOf(env, s[i + 2..end]);
      RenderAll(env, Pieces(s)) == if value.Err? then value
                                   else Prepend(s[..i] + value.value, RenderAll(env, Pieces(s[end + 1..])))
  {
    PiecesAtRef(s, i, end);
    RenderTwo(env, Text(s[..i]), Ref(s[i + 2..end]), Pieces(s[end + 1..]));
  }

  lemma PastReference(env: Environment, done: string, s: string, i: nat, end: nat)
    requires FindOpen(s, 0) == Some(i) && (i > 0 ==> s[i - 1] != '$')
    requires i + 2 <= end < |s| && FindClose(s, i) == Some(end)
    ensures var value := ValueOf(env, s[i + 2..end]);
      if value.Err? then RenderAll(env, Pieces(s)) == value
      else Prepend(done, RenderAll(env, Pieces(s)))
           == Prepend(done + s[..i] + value.value, RenderAll(env, Pieces(s[end + 1..])))
  {
    ReferenceRenders(env, s, i, end);
    var value := ValueOf(env, s[i + 2..end]);
    if value.Ok? {
      PrependTwice(done, s[..i] + value.value, RenderAll(env, Pieces(s[end + 1..])));
      assert done + (s[..i] + value.value) == done + s[..i] + value.value;
    }
  }

  lemma CloseIsPastOpen(s: string, i: nat)
    requires i < |s| && Opens(s, i) && FindClose(s, i).Some?
    ensures i + 2 <= FindClose(s, i).value
  {
    assert s[i] == '$' && s[i + 1] == '{';
  }

  /** Scans the text once, left to right, and never looks at a value it has spliced in. */
  method Expand(env: Environment, input: string) returns (r: Result<string, ExpandError>)
    ensures r == RenderAll(env, Pieces(input))
  {
    var result, rest := "", input;
    PrependNothing(RenderAll(env, Pieces(input)));
    while true
      invariant RenderAll(env, Pieces(input)) == Prepend(result, RenderAll(env, Pieces(rest)))
      decreases |rest|
    {
      var opening := FindOpen(rest, 0);
      if opening.None? {
        RenderOne(env, rest);
        return Ok(result + rest);
      }
      var start := opening.value;
      if start > 0 && rest[start - 1] == '$' {
        PastEscape(env, result, rest, start);
        result := result + rest[..start - 1] + "${";
        rest := rest[start + 2..];
        continue;
      }
      var close := FindClose(rest, start);
      if close.None? {
        return Err(Unclosed);
      }
      var end := close.value;
      CloseIsPastOpen(rest, start);
      var value := ValueOf(env, rest[start + 2..end]);
      PastReference(env, result, rest, start, end);
      if value.Err? {
        return value;
      }
      result := result + rest[..start] + value.value;
      rest := rest[end + 1..];
    }
  }

  // ----- what the pieces are

  lemma UnparseTwo(p: Piece, q: Piece, rest: seq<Piece>)
    ensures Unparse([p, q] + rest) == Source(p) + Source(q) + Unparse(rest)
  {
    var ps := [p, q] + rest;
    assert ps[1..] == [q] + rest && ps[1..][1..] == rest;
    assert Source(p) + (Source(q) + Unparse(rest)) == Source(p) + Source(q) + Unparse(rest);
  }

  lemma UnparseOne(p: Piece)
    ensures Unparse([p]) == Source(p)
  {
    assert [p][1..] == [];
    assert Source(p) + "" == Source(p);
  }

  lemma EscapeInPlace(s: string, i: nat)
    requires 0 < i < |s| - 1 && Opens(s, i) && s[i - 1] == '$'
    ensures s == s[..i - 1] + "$${" + s[i + 2..]
  {
    assert s[i - 1..i + 2] == "$${";
  }

  lemma OpenInPlace(s: string, i: nat)
    requires i < |s| - 1 && Opens(s, i)
    ensures s == s[..i] + "${" + s[i + 2..]
  {
    assert s[i..i + 2] == "${";
  }

  lemma ReferenceInPlace(s: string, i: nat, end: nat)
    requires i < end < |s| && Opens(s, i) && s[end] == '}' && i + 2 <= end
    ensures s == s[..i] + ("${" + s[i + 2..end] + "}") + s[end + 1..]
  {
    assert s[i..end + 1] == "${" + s[i + 2..end] + "}";
    assert s == s[..i] + s[i..end + 1] + s[end + 1..];
  }

  /** The pieces spell out the text exactly: nothing is lost and nothing is read twice. */
  lemma {:induction false} PiecesAreTheText(s: string)
    ensures Unparse(Pieces(s)) == s
    decreases |s|
  {
    var opening := FindOpen(s, 0);
    if opening.None? {
      UnparseOne(Text(s));
    } else {
      var i := opening.value;
      if i > 0 && s[i - 1] == '$' {
        PiecesAreTheText(s[i + 2..]);
        UnparseTwo(Text(s[..i - 1]), Escaped, Pieces(s[i + 2..]));
        EscapeInPlace(s, i);
      } else {
        var close := FindClose(s, i);
        if close.None? {
          UnparseOne(Broken(s));
        } else {
          PiecesAreTheText(s[close.value + 1..]);
          UnparseTwo(Text(s[..i]), Ref(s[i + 2..close.value]), Pieces(s[close.value + 1..]));
          ReferenceInPlace(s, i, close.value);
        }
      }
    }
  }

  /** No reference opens anywhere in the text. */
  ghost predicate Plain(t: string) {
    forall j :: 0 <= j < |t| ==> !Opens(t, j)
  }

  /** After plain text, the first reference opens where the rest first opens one. */
  lemma FirstOpen(t: string, u: string, k: nat)
    requires Plain(t) && u != [] && u[0] == '$' && k <= 1 && Opens(u, k) && (k == 1 ==> !Opens(u, 0))
    ensures FindOpen(t + u, 0) == Some(|t| + k)
  {
    var s := t + u;
    forall j | 0 <= j < |t| + k
      ensures !Opens(s, j)
    {
      if j < |t| {
        assert s[j] == t[j] && !Opens(t, j);
        assert s[j + 1] == if j + 1 < |t| then t[j + 1] else '$';
      } else {
        assert j == |t| && s[j] == u[0] && s[j + 1] == u[1];
      }
    }
    assert s[|t| + k] == u[k] && s[|t| + k + 1] == u[k + 1];
    FindOpenIff(s, 0, |t| + k);
  }

  /** The first opening is at `i`, it is not escaped, and no brace closes it. */
  predicate LeftOpenAt(t: string, i: nat) {
    && Opens(t, i) && (forall j :: 0 <= j < i ==> !Opens(t, j))
    && (i > 0 ==> t[i - 1] != '$')
    && forall j :: i <= j < |t| ==> t[j] != '}'
  }

  ghost predicate LeftOpen(t: string) {
    exists i: nat :: LeftOpenAt(t, i)
  }

  /** A reference holds no brace and does not follow a dollar sign. */
  predicate RefFits(t: string, q: Piece) {
    q.Ref? && '}' !in q.expr && (t != [] ==> t[|t| - 1] != '$')
  }

  /** Plain texts between escapes and references, and at the end a plain text or one left open. */
  ghost predicate WellFormed(ps: seq<Piece>) {
    if |ps| == 1 then
      (ps[0].Text? && Plain(ps[0].text)) || (ps[0].Broken? && LeftOpen(ps[0].text))
    else
      && |ps| > 2 && ps[0].Text? && Plain(ps[0].text)
      && (ps[1].Escaped? || RefFits(ps[0].text, ps[1]))
      && WellFormed(ps[2..])
  }

  lemma {:induction false} FindCloseNone(s: string, from: nat)
    requires from <= |s|
    ensures FindClose(s, from) == None <==> forall j :: from <= j < |s| ==> s[j] != '}'
    decreases |s| - from
  {
    if from < |s| && s[from] != '}' {
      FindCloseNone(s, from + 1);
    }
  }

  /** The scanner gives up on a text exactly when its first opening is unescaped and never closed. */
  lemma BrokenIff(t: string)
    ensures Pieces(t) == [Broken(t)] <==> LeftOpen(t)
  {
    match FindOpen(t, 0)
    case None => FindOpenIff(t, 0, 0);
    case Some(i) =>
      FindOpenIff(t, 0, i);
      FindCloseNone(t, i);
      assert Pieces(t) == [Broken(t)] <==> LeftOpenAt(t, i);
      forall k: nat | LeftOpenAt(t, k)
        ensures k == i
      {
        FindOpenIff(t, 0, k);
      }
  }

  lemma PiecesAtEscape(s: string, t: string, rest: string)
    requires FindOpen(s, 0) == Some(|t| + 1) && s[|t|] == '$'
    requires s[..|t|] == t && s[|t| + 3..] == rest
    ensures Pieces(s) == [Text(t), Escaped] + Pieces(rest)
  {
    var i := |t| + 1;
    assert Pieces(s) == [Text(s[..i - 1]), Escaped] + Pieces(s[i + 2..]);
  }

  lemma PiecesEscaped(t: string, rest: string, s: string)
    requires Plain(t) && s == t + "$${" + rest
    ensures Pieces(s) == [Text(t), Escaped] + Pieces(rest)
  {
    assert s == t + ("$${" + rest);
    FirstOpen(t, "$${" + rest, 1);
    assert s[|t|] == '$' && s[..|t|] == t && s[|t| + 3..] == rest;
    PiecesAtEscape(s, t, rest);
  }

  ghost predicate Spells(ref: string, expr: string) {
    && |ref| == |expr| + 3 && ref[0] == '$' && ref[1] == '{' && ref[|expr| + 2] == '}' && ref[2..|expr| + 2] == expr
    && forall j :: 0 <= j < |expr| + 2 ==> ref[j] != '}'
  }

  lemma RefSpells(expr: string)
    requires '}' !in expr
    ensures Spells("${" + expr + "}", expr)
  {
    var ref := "${" + expr + "}";
    assert forall j :: 2 <= j < |expr| + 2 ==> ref[j] == expr[j - 2];
  }

  lemma RefSlices(t: string, ref: string, rest: string, s: string)
    requires s == t + ref + rest && |ref| >= 3
    ensures s[..|t|] == t && s[|t| + 2..|t| + |ref| - 1] == ref[2..|ref| - 1] && s[|t| + |ref|..] == rest
    ensures t != [] ==> s[|t| - 1] == t[|t| - 1]
  {
  }

  lemma FindsRef(t: string, ref: string, expr: string, rest: string, s: string)
    requires Plain(t) && Spells(ref, expr) && s == t + ref + rest
    ensures FindOpen(s, 0) == Some(|t|) && FindClose(s, |t|) == Some(|t| + |ref| - 1)
  {
    OpensAtRef(t, ref, rest, s);
    ClosesRef(t, ref, rest, s);
  }

  lemma OpensAtRef(t: string, ref: string, rest: string, s: string)
    requires Plain(t) && |ref| > 1 && ref[0] == '$' && ref[1] == '{' && s == t + ref + rest
    ensures FindOpen(s, 0) == Some(|t|)
  {
    assert s == t + (ref + rest);
    FirstOpen(t, ref + rest, 0);
  }

  lemma ClosesRef(t: string, ref: string, rest: string, s: string)
    requires s == t + ref + rest && ref != [] && ref[|ref| - 1] == '}'
    requires forall j :: 0 <= j < |ref| - 1 ==> ref[j] != '}'
    ensures FindClose(s, |t|) == Some(|t| + |ref| - 1)
  {
    assert forall j :: |t| <= j < |t| + |ref| ==> s[j] == ref[j - |t|];
    FindCloseIff(s, |t|, |t| + |ref| - 1);
  }

  lemma PiecesAtRef(s: string, i: nat, end: nat)
    requires i + 2 <= end < |s|
    requires FindOpen(s, 0) == Some(i) && (i > 0 ==> s[i - 1] != '$') && FindClose(s, i) == Some(end)
    ensures Pieces(s) == [Text(s[..i]), Ref(s[i + 2..end])] + Pieces(s[end + 1..])
  {
  }

  lemma PiecesRef(t: string, expr: string, rest: string, s: string)
    requires Plain(t) && '}' !in expr && (t != [] ==> t[|t| - 1] != '$') && s == t + ("${" + expr + "}") + rest
    ensures Pieces(s) == [Text(t), Ref(expr)] + Pieces(rest)
  {
    var ref := "${" + expr + "}";
    RefSpells(expr);
    RefSlices(t, ref, rest, s);
    FindsRef(t, ref, expr, rest, s);
    PiecesAtRef(s, |t|, |t| + |ref| - 1);
  }

  /** There is only one way to read a text as pieces: the one the scanner finds. */
  lemma {:induction false} PiecesAreUnique(ps: seq<Piece>)
    requires WellFormed(ps)
    ensures Pieces(Unparse(ps)) == ps
    decreases |ps|
  {
    if |ps| == 1 {
      UnparseOne(ps[0]);
      assert ps == [ps[0]];
      if ps[0].Broken? {
        BrokenIff(ps[0].text);
      }
    } else {
      PiecesAreUnique(ps[2..]);
      assert ps == [ps[0], ps[1]] + ps[2..];
      UnparseTwo(ps[0], ps[1], ps[2..]);
      if ps[1].Escaped? {
        PiecesEscaped(ps[0].text, Unparse(ps[2..]), Unparse(ps));
      } else {
        PiecesRef(ps[0].text, ps[1].expr, Unparse(ps[2..]), Unparse(ps));
      }
    }
  }

  lemma WellFormedTwo(t: string, q: Piece, rest: seq<Piece>)
    requires Plain(t) && WellFormed(rest) && rest != []
    requires q.Escaped? || RefFits(t, q)
    ensures WellFormed([Text(t), q] + rest)
  {
    assert ([Text(t), q] + rest)[2..] == rest;
  }

  /** And what the scanner finds has that form. */
  lemma {:induction false} PiecesAreWellFormed(s: string)
    ensures WellFormed(Pieces(s))
    decreases |s|
  {
    var opening := FindOpen(s, 0);
    if opening.None? {
      FindOpenIff(s, 0, 0);
    } else {
      var i := opening.value;
      if i > 0 && s[i - 1] == '$' {
        PiecesAreWellFormed(s[i + 2..]);
        EscapeIsWellFormed(s, i);
      } else if FindClose(s, i).Some? {
        CloseIsPastOpen(s, i);
        PiecesAreWellFormed(s[FindClose(s, i).value + 1..]);
        RefIsWellFormed(s, i, FindClose(s, i).value);
      } else {
        BrokenIff(s);
      }
    }
  }

  lemma EscapeIsWellFormed(s: string, i: nat)
    requires FindOpen(s, 0) == Some(i) && i > 0 && s[i - 1] == '$' && WellFormed(Pieces(s[i + 2..]))
    ensures WellFormed(Pieces(s))
  {
    PlainPrefix(s, i, i - 1);
    PiecesNonempty(s[i + 2..]);
    WellFormedTwo(s[..i - 1], Escaped, Pieces(s[i + 2..]));
    PiecesAtEscape(s, s[..i - 1], s[i + 2..]);
  }

  lemma RefIsWellFormed(s: string, i: nat, end: nat)
    requires FindOpen(s, 0) == Some(i) && (i > 0 ==> s[i - 1] != '$')
    requires i + 2 <= end < |s| && FindClose(s, i) == Some(end)
    requires WellFormed(Pieces(s[end + 1..]))
    ensures WellFormed(Pieces(s))
  {
    var expr := s[i + 2..end];
    PlainPrefix(s, i, i);
    FindCloseIff(s, i, end);
    assert forall j :: 0 <= j < |expr| ==> expr[j] == s[i + 2 + j];
    PiecesNonempty(s[end + 1..]);
    WellFormedTwo(s[..i], Ref(expr), Pieces(s[end + 1..]));
    PiecesAtRef(s, i, end);
  }

  lemma PiecesNonempty(s: string)
    ensures Pieces(s) != []
  {
  }

  lemma PlainPrefix(s: string, i: nat, n: nat)
    requires FindOpen(s, 0) == Some(i) && n <= i
    ensures Plain(s[..n])
  {
    FindOpenIff(s, 0, i);
    forall j | 0 <= j < n
      ensures !Opens(s[..n], j)
    {
      assert !Opens(s, j);
    }
  }

  // ----- what a reference stands for

  /** The reference is the name alone, or the name before its first `:-` and the default after it. */
  ghost predicate Reads(expr: string, name: string, default: Option<string>) {
    match default
    case None => name == expr && forall j :: !Separates(expr, j)
    case Some(d) => expr == name + ":-" + d && forall j :: 0 <= j < |name| ==> !Separates(expr, j)
  }

  /** A set variable is what it is set to, whatever the default; an unset one is its default, or an error. */
  lemma ValueOfIs(env: Environment, expr: string, name: string, default: Option<string>)
    requires Reads(expr, name, default)
    ensures ValueOf(env, expr) ==
      if env(name).Some? then Ok(env(name).value)
      else if default.Some? then Ok(default.value)
      else Err(NotSet(name))
  {
    match default
    case None => FindDefaultNone(expr, 0);
    case Some(d) =>
      FindDefaultIff(expr, 0, |name|);
      assert expr[..|name|] == name && expr[|name| + 2..] == d;
      assert expr[|name|] == ':' && expr[|name| + 1] == '-';
  }

  lemma {:induction false} FindDefaultNone(expr: string, from: nat)
    requires from <= |expr| && forall j :: !Separates(expr, j)
    ensures FindDefault(expr, from) == None
    decreases |expr| - from
  {
    if from < |expr| {
      FindDefaultNone(expr, from + 1);
    }
  }

  /** Every reference reads in exactly one way. */
  lemma ReadsOneWay(expr: string) returns (name: string, default: Option<string>)
    ensures Reads(expr, name, default)
    ensures forall n, d :: Reads(expr, n, d) ==> n == name && d == default
  {
    match FindDefault(expr, 0)
    case None =>
      name, default := expr, None;
      SeparatesNowhere(expr, 0);
      forall n, d | Reads(expr, n, d)
        ensures n == name && d == default
      {
        ReadsAt(expr, n, d);
      }
    case Some(sep) =>
      name, default := expr[..sep], Some(expr[sep + 2..]);
      FindDefaultIff(expr, 0, sep);
      assert expr == name + ":-" + default.value;
      forall n, d | Reads(expr, n, d)
        ensures n == name && d == default
      {
        ReadsAt(expr, n, d);
      }
  }

  lemma {:induction false} SeparatesNowhere(expr: string, from: nat)
    requires from <= |expr| && FindDefault(expr, from) == None
    ensures forall j :: from <= j ==> !Separates(expr, j)
    decreases |expr| - from
  {
    if from < |expr| {
      SeparatesNowhere(expr, from + 1);
    }
  }

  lemma ReadsAt(expr: string, name: string, default: Option<string>)
    requires Reads(expr, name, default)
    ensures match FindDefault(expr, 0)
            case None => name == expr && default == None
            case Some(sep) => name == expr[..sep] && default == Some(expr[sep + 2..])
  {
    match default
    case None => FindDefaultNone(expr, 0);
    case Some(d) =>
      assert expr[..|name|] == name && expr[|name| + 2..] == d;
      assert expr[|name|] == ':' && expr[|name| + 1] == '-';
      FindDefaultIff(expr, 0, |name|);
  }

  // ----- which error is reported

  /** The first piece from the left that has no value is at `k`. */
  ghost predicate FailsFirst(env: Environment, ps: seq<Piece>, k: nat) {
    && k < |ps| && Render(env, ps[k]).Err?
    && forall j :: 0 <= j < k ==> Render(env, ps[j]).Ok?
  }

  /** Expansion fails exactly when some piece does, with the first such piece's error. */
  lemma {:induction false} RenderErrIff(env: Environment, ps: seq<Piece>)
    ensures RenderAll(env, ps).Err? <==> exists k: nat :: FailsFirst(env, ps, k)
    ensures forall k: nat :: FailsFirst(env, ps, k) ==> RenderAll(env, ps) == Render(env, ps[k])
  {
    if ps != [] {
      var rest := ps[1..];
      RenderErrIff(env, rest);
      if Render(env, ps[0]).Err? {
        assert FailsFirst(env, ps, 0);
      } else {
        forall k: nat
          ensures FailsFirst(env, ps, k + 1) <==> FailsFirst(env, rest, k)
        {
          FailsLater(env, ps, k);
        }
      }
    }
  }

  lemma FailsLater(env: Environment, ps: seq<Piece>, k: nat)
    requires ps != [] && Render(env, ps[0]).Ok?
    ensures FailsFirst(env, ps, k + 1) <==> FailsFirst(env, ps[1..], k)
  {
  }

  lemma {:induction false} OnlyLastIsBroken(ps: seq<Piece>, k: nat)
    requires WellFormed(ps) && k < |ps| && ps[k].Broken?
    ensures k == |ps| - 1 && LeftOpen(ps[k].text)
  {
    if |ps| > 1 {
      OnlyLastIsBroken(ps[2..], k - 2);
    }
  }

  /** The last piece is left open, and every reference has a value. */
  ghost predicate EndsOpen(env: Environment, ps: seq<Piece>) {
    && ps != [] && ps[|ps| - 1].Broken? && LeftOpen(ps[|ps| - 1].text)
    && forall k :: 0 <= k < |ps| && ps[k].Ref? ==> ValueOf(env, ps[k].expr).Ok?
  }

  lemma BrokenFailsFirst(env: Environment, ps: seq<Piece>, k: nat)
    requires WellFormed(ps) && k < |ps| && ps[k].Broken?
    ensures FailsFirst(env, ps, k) <==> EndsOpen(env, ps)
  {
    OnlyLastIsBroken(ps, k);
    forall j: nat | j < k
      ensures !ps[j].Broken?
    {
      if ps[j].Broken? {
        OnlyLastIsBroken(ps, j);
      }
    }
    assert forall j :: 0 <= j < k ==> (Render(env, ps[j]).Err? <==> ps[j].Ref? && ValueOf(env, ps[j].expr).Err?);
  }

  lemma OnlyBrokenIsUnclosed(env: Environment, p: Piece)
    ensures Render(env, p) == Err(Unclosed) <==> p.Broken?
  {
  }

  /** The error is `Unclosed` exactly when the text ends in a part left open and every reference has a value. */
  lemma UnclosedIff(env: Environment, s: string)
    ensures RenderAll(env, Pieces(s)) == Err(Unclosed) <==> EndsOpen(env, Pieces(s))
  {
    var ps := Pieces(s);
    PiecesAreWellFormed(s);
    RenderErrIff(env, ps);
    if RenderAll(env, ps) == Err(Unclosed) {
      var k: nat :| FailsFirst(env, ps, k);
      OnlyBrokenIsUnclosed(env, ps[k]);
      BrokenFailsFirst(env, ps, k);
    }
    if EndsOpen(env, ps) {
      BrokenFailsFirst(env, ps, |ps| - 1);
    }
  }

  // ----- the escape

  /** Put a `$` before every `${`. */
  function Escape(s: string): string
    decreases |s|
  {
    match FindOpen(s, 0)
    case None => s
    case Some(i) => s[..i] + "$${" + Escape(s[i + 2..])
  }

  lemma RenderEscaped(env: Environment, t: string, rest: seq<Piece>, u: string)
    requires RenderAll(env, rest) == Ok(u)
    ensures RenderAll(env, [Text(t), Escaped] + rest) == Ok(t + "${" + u)
  {
    RenderTwo(env, Text(t), Escaped, rest);
  }

  /** Expanding an escaped text gives the text back, for every text and every environment. */
  lemma {:induction false} EscapeRoundTrip(env: Environment, s: string)
    ensures RenderAll(env, Pieces(Escape(s))) == Ok(s)
    decreases |s|
  {
    var opening := FindOpen(s, 0);
    if opening.None? {
      RenderOne(env, s);
    } else {
      var i := opening.value;
      EscapeRoundTrip(env, s[i + 2..]);
      PlainPrefix(s, i, i);
      PiecesEscaped(s[..i], Escape(s[i + 2..]), Escape(s));
      RenderEscaped(env, s[..i], Pieces(Escape(s[i + 2..])), s[i + 2..]);
      OpenInPlace(s, i);
    }
  }

  /** References are read from the text alone: an environment that agrees on them gives the same result. */
  lemma {:induction false} OnlyReferencesMatter(env: Environment, other: Environment, ps: seq<Piece>)
    requires forall i :: 0 <= i < |ps| && ps[i].Ref? ==> ValueOf(env, ps[i].expr) == ValueOf(other, ps[i].expr)
    ensures RenderAll(env, ps) == RenderAll(other, ps)
  {
    if ps != [] {
      OnlyReferencesMatter(env, other, ps[1..]);
    }
  }
}
