/** Placeholder compilation: the mask is scanned left to right for
    non-overlapping `{name}` tokens (name from `[a-zA-Z0-9\-_]+`); each token
    becomes the named capture `(?P<name>[^/]+)` and contributes one entry to
    the parameter map. The regex replace callback, which updates the
    endpoint's parameters through a captured reference, is modelled as a fold
    threading the pattern so far and the parameters so far. */
module Placeholders {
  import opened Schema

  /** A character of the class `[a-zA-Z0-9\-_]`. */
  predicate IsNameChar(c: char) {
    ('a' <= c <= 'z') || ('A' <= c <= 'Z') || ('0' <= c <= '9') || c == '-' || c == '_'
  }

  /** The text `{n}` with a non-empty name n starts at position i of s. */
  predicate IsTokenAt(s: string, i: nat, n: string) {
    |n| > 0 && i + |n| + 2 <= |s| && s[i] == '{' && s[i + |n| + 1] == '}'
    && forall j :: 0 <= j < |n| ==> IsNameChar(n[j]) && s[i + 1 + j] == n[j]
  }

  /** Some `{n}` token occurs somewhere in s. */
  ghost predicate HasToken(s: string, n: string) {
    exists i: nat :: IsTokenAt(s, i, n)
  }

  // ---------------------------------------------------------------------
  // The token scan

  /** The longest prefix of s made of name characters. */
  function NameRun(s: string): (n: string)
    ensures |n| <= |s| && n == s[..|n|]
    ensures forall j :: 0 <= j < |n| ==> IsNameChar(n[j])
    ensures |n| < |s| ==> !IsNameChar(s[|n|])
    decreases |s|
  {
    if s != "" && IsNameChar(s[0]) then [s[0]] + NameRun(s[1..]) else ""
  }

  /** The name of the token that the pattern `{([a-zA-Z0-9\-_]+)}` matches
      when tried at the start of s, if it matches there. The ungreedy flag
      makes no difference: '}' is not a name character, so the name always
      runs up to the first '}'. */
  function TokenAt(s: string): (t: Option<string>)
    ensures t.Some? ==> IsTokenAt(s, 0, t.value)
  {
    if |s| > 0 && s[0] == '{' then
      var n := NameRun(s[1..]);
      if |n| > 0 && |n| + 1 < |s| && s[|n| + 1] == '}' then Some(n) else None
    else None
  }

  /** TokenAt finds every token that starts at position 0. */
  lemma TokenAtComplete(s: string, n: string)
    requires IsTokenAt(s, 0, n)
    ensures TokenAt(s) == Some(n)
  {
    var x := s[1..];
    var r := NameRun(x);
    forall j | 0 <= j < |n| ensures x[j] == n[j] && IsNameChar(x[j]) {
      assert x[j] == s[1 + j];
    }
    assert x[|n|] == '}' && !IsNameChar(x[|n|]);
    assert r == x[..|n|] == n;
  }

  /** A token found at position k of s is at position k - start of s[start..]. */
  lemma TokenShift(s: string, start: nat, k: nat, n: string)
    requires start <= k && start <= |s|
    ensures IsTokenAt(s, k, n) <==> IsTokenAt(s[start..], k - start, n)
  {
    var u := s[start..];
    if IsTokenAt(s, k, n) {
      forall j | 0 <= j < |n| ensures u[k - start + 1 + j] == n[j] {
        assert u[k - start + 1 + j] == s[k + 1 + j];
      }
    }
    if IsTokenAt(u, k - start, n) {
      forall j | 0 <= j < |n| ensures s[k + 1 + j] == n[j] {
        assert u[k - start + 1 + j] == s[k + 1 + j];
      }
    }
  }

  /** A piece of the scanned mask: a literal character or a matched token. */
  datatype Piece = Literal(c: char) | Token(name: string)

  /** The matches of the token pattern, left to right and non-overlapping,
      with the unmatched characters between them. */
  function Scan(s: string): (ps: seq<Piece>)
    ensures |ps| <= |s|
    ensures ps == [] <==> s == ""
    decreases |s|
  {
    if s == "" then []
    else match TokenAt(s)
      case Some(n) => [Token(n)] + Scan(s[|n| + 2..])
      case None => [Literal(s[0])] + Scan(s[1..])
  }

  /** The text a piece was scanned from. */
  function PieceSource(p: Piece): string
  {
    match p
    case Literal(c) => [c]
    case Token(n) => "{" + n + "}"
  }

  function Source(ps: seq<Piece>): string
  {
    if ps == [] then "" else PieceSource(ps[0]) + Source(ps[1..])
  }

  /** The names of the tokens among the pieces. */
  function TokenNames(ps: seq<Piece>): set<string>
  {
    if ps == [] then {} else (if ps[0].Token? then {ps[0].name} else {}) + TokenNames(ps[1..])
  }

  /** The text of a token found at position 0. */
  lemma TokenText(s: string, n: string)
    requires IsTokenAt(s, 0, n)
    ensures s[..|n| + 2] == "{" + n + "}"
  {
    var t := "{" + n + "}";
    forall j | 0 <= j < |t| ensures s[j] == t[j] {
      if 0 < j < |n| + 1 {
        assert t[j] == n[j - 1];
        assert s[1 + (j - 1)] == n[j - 1];
      }
    }
  }

  /** Scan, one step: a token at the start becomes a Token piece. */
  lemma ScanToken(s: string, n: string)
    requires TokenAt(s) == Some(n)
    ensures Scan(s) == [Token(n)] + Scan(s[|n| + 2..])
  {
  }

  /** Scan, one step: any other first character becomes a Literal piece. */
  lemma ScanLiteral(s: string)
    requires s != "" && TokenAt(s) == None
    ensures Scan(s) == [Literal(s[0])] + Scan(s[1..])
  {
  }

  lemma SourceCons(p: Piece, rest: seq<Piece>)
    ensures Source([p] + rest) == PieceSource(p) + Source(rest)
  {
    assert ([p] + rest)[1..] == rest;
  }

  /** The scan loses nothing: the pieces spell out the mask. */
  lemma {:induction false} ScanSource(s: string)
    ensures Source(Scan(s)) == s
    decreases |s|
  {
    if s != "" {
      match TokenAt(s)
      case Some(n) =>
        var k := |n| + 2;
        ScanSource(s[k..]);
        ScanToken(s, n);
        SourceCons(Token(n), Scan(s[k..]));
        TokenText(s, n);
        assert s == s[..k] + s[k..];
      case None =>
        ScanSource(s[1..]);
        ScanLiteral(s);
        SourceCons(Literal(s[0]), Scan(s[1..]));
        assert s == [s[0]] + s[1..];
    }
  }

  /** Every name the scan reports is the name of a token of the mask. */
  lemma {:induction false} ScanFindsOnlyTokens(s: string, n: string)
    requires n in TokenNames(Scan(s))
    ensures HasToken(s, n)
    decreases |s|
  {
    var ps := Scan(s);
    match TokenAt(s)
    case Some(m) =>
      var k := |m| + 2;
      ScanToken(s, m);
      assert ps[0] == Token(m) && ps[1..] == Scan(s[k..]);
      if n == m {
        assert IsTokenAt(s, 0, n);
      } else {
        ScanFindsOnlyTokens(s[k..], n);
        var i: nat :| IsTokenAt(s[k..], i, n);
        TokenShift(s, k, i + k, n);
        assert IsTokenAt(s, i + k, n);
      }
    case None =>
      ScanLiteral(s);
      assert ps[0] == Literal(s[0]) && ps[1..] == Scan(s[1..]);
      ScanFindsOnlyTokens(s[1..], n);
      var i: nat :| IsTokenAt(s[1..], i, n);
      TokenShift(s, 1, i + 1, n);
      assert IsTokenAt(s, i + 1, n);
  }

  /** Inside a token there is no '{': its name characters and its closing
      '}' are all different from '{'. */
  lemma NoBraceInsideToken(s: string, m: string, i: nat)
    requires IsTokenAt(s, 0, m) && 0 < i < |m| + 2
    ensures s[i] != '{'
  {
    if i < |m| + 1 {
      assert s[1 + (i - 1)] == m[i - 1] && IsNameChar(m[i - 1]);
    }
  }

  /** A token found at the start of the mask ends before any later token
      begins: neither a name character nor '}' is '{'. */
  lemma TokensDoNotOverlap(s: string, m: string, i: nat, n: string)
    requires IsTokenAt(s, 0, m) && IsTokenAt(s, i, n) && 0 < i
    ensures |m| + 2 <= i
  {
    if i < |m| + 2 {
      NoBraceInsideToken(s, m, i);
      assert false;
    }
  }

  lemma TokenNamesCons(p: Piece, rest: seq<Piece>)
    ensures TokenNames([p] + rest) == (if p.Token? then {p.name} else {}) + TokenNames(rest)
  {
    assert ([p] + rest)[1..] == rest;
  }

  /** Every occurrence of a token in the mask becomes a Token piece of the
      scan: the piece at index k, with the pieces before it spelling out the
      text before the occurrence. A repeated name is found at each of its
      occurrences. */
  lemma {:induction false} ScanFindsOccurrence(s: string, i: nat, n: string) returns (k: nat)
    requires IsTokenAt(s, i, n)
    ensures k < |Scan(s)| && Scan(s)[k] == Token(n)
    ensures Source(Scan(s)[..k]) == s[..i]
    decreases |s|, 1
  {
    if i == 0 {
      TokenAtComplete(s, n);
      ScanToken(s, n);
      k := 0;
    } else if TokenAt(s).Some? {
      k := OccurrenceAfterToken(s, TokenAt(s).value, i, n);
    } else {
      k := OccurrenceAfterLiteral(s, i, n);
    }
  }

  /** An occurrence after a token at the start is found past that token. */
  lemma {:induction false} OccurrenceAfterToken(s: string, m: string, i: nat, n: string) returns (k: nat)
    requires TokenAt(s) == Some(m) && IsTokenAt(s, i, n) && 0 < i
    ensures k < |Scan(s)| && Scan(s)[k] == Token(n)
    ensures Source(Scan(s)[..k]) == s[..i]
    decreases |s|, 0
  {
    var w := |m| + 2;
    TokensDoNotOverlap(s, m, i, n);
    TokenShift(s, w, i, n);
    var j := ScanFindsOccurrence(s[w..], i - w, n);
    TokenText(s, m);
    OccurrencePastPiece(Token(m), Scan(s[w..]), j, s, w, i);
    ScanToken(s, m);
    k := j + 1;
  }

  /** An occurrence after a literal first character is found past it. */
  lemma {:induction false} OccurrenceAfterLiteral(s: string, i: nat, n: string) returns (k: nat)
    requires TokenAt(s) == None && IsTokenAt(s, i, n) && 0 < i
    ensures k < |Scan(s)| && Scan(s)[k] == Token(n)
    ensures Source(Scan(s)[..k]) == s[..i]
    decreases |s|, 0
  {
    TokenShift(s, 1, i, n);
    var j := ScanFindsOccurrence(s[1..], i - 1, n);
    OccurrencePastPiece(Literal(s[0]), Scan(s[1..]), j, s, 1, i);
    ScanLiteral(s);
    k := j + 1;
  }

  /** Putting a piece that spells s[..w] in front of the pieces of s[w..]
      moves an occurrence one index on and keeps its text prefix in step. */
  lemma OccurrencePastPiece(p: Piece, rest: seq<Piece>, j: nat, s: string, w: nat, i: nat)
    requires j < |rest| && w <= i <= |s|
    requires PieceSource(p) == s[..w] && Source(rest[..j]) == s[w..][..i - w]
    ensures ([p] + rest)[j + 1] == rest[j]
    ensures Source(([p] + rest)[..j + 1]) == s[..i]
  {
    assert ([p] + rest)[..j + 1] == [p] + rest[..j];
    SourceCons(p, rest[..j]);
    assert s[w..][..i - w] == s[w..i];
    assert s[..i] == s[..w] + s[w..i];
  }

  /** The name of every Token piece is among the token names. */
  lemma {:induction false} TokenNamesHas(ps: seq<Piece>, k: nat)
    requires k < |ps| && ps[k].Token?
    ensures ps[k].name in TokenNames(ps)
    decreases k
  {
    if k > 0 {
      TokenNamesHas(ps[1..], k - 1);
    }
  }

  /** Every token of the mask is reported by the scan. */
  lemma ScanFindsAllTokens(s: string, i: nat, n: string)
    requires IsTokenAt(s, i, n)
    ensures n in TokenNames(Scan(s))
  {
    var k := ScanFindsOccurrence(s, i, n);
    TokenNamesHas(Scan(s), k);
  }

  /** The scan finds exactly the names of the tokens that occur in the mask. */
  lemma ScanTokens(s: string)
    ensures forall n :: n in TokenNames(Scan(s)) <==> HasToken(s, n)
  {
    forall n ensures n in TokenNames(Scan(s)) <==> HasToken(s, n) {
      if n in TokenNames(Scan(s)) {
        ScanFindsOnlyTokens(s, n);
      }
      if HasToken(s, n) {
        var i: nat :| IsTokenAt(s, i, n);
        ScanFindsAllTokens(s, i, n);
      }
    }
  }

  // ---------------------------------------------------------------------
  // Fragments, metadata and the fold

  /** `sprintf('(?P<%s>[^/]+)', name)` */
  function Fragment(name: string): string
  {
    "(?P<" + name + ">[^/]+)"
  }

  /** The parameter entry for a token: scalar type and no description by
      default, type and description of the declared parameter when the
      method declares one of that name. */
  function Metadata(name: string, declared: map<string, Parameter>): (e: ParamMeta)
    ensures e.name == name && e.pattern == Fragment(name)
    ensures name in declared ==> e.paramType == declared[name].paramType && e.description == declared[name].description
    ensures name !in declared ==> e.paramType == Scalar && e.description == None
  {
    var default := ParamMeta(name, Fragment(name), Scalar, None);
    if name in declared then
      default.(paramType := declared[name].paramType, description := declared[name].description)
    else default
  }

  /** What a piece turns into in the pattern body. */
  function PieceRender(p: Piece): string
  {
    match p
    case Literal(c) => [c]
    case Token(n) => Fragment(n)
  }

  /** The pieces with every token replaced by its fragment, in order. */
  function Render(ps: seq<Piece>): string
  {
    if ps == [] then "" else PieceRender(ps[0]) + Render(ps[1..])
  }

  /** The accumulator of the fold: the pattern so far and the parameters so far. */
  datatype Compiled = Compiled(body: string, parameters: map<string, ParamMeta>)

  /** One step of the replace callback. */
  function Step(p: Piece, declared: map<string, Parameter>, acc: Compiled): Compiled
  {
    match p
    case Literal(c) => Compiled(acc.body + [c], acc.parameters)
    case Token(n) => Compiled(acc.body + Fragment(n), acc.parameters[n := Metadata(n, declared)])
  }

  /** The fold over the pieces: the replace callback applied to each match in turn. */
  function Replace(ps: seq<Piece>, declared: map<string, Parameter>, acc: Compiled): Compiled
    decreases |ps|
  {
    if ps == [] then acc else Replace(ps[1..], declared, Step(ps[0], declared, acc))
  }

  /** The body grows by the rendering of the pieces, in order. */
  lemma {:induction false} ReplaceBody(ps: seq<Piece>, declared: map<string, Parameter>, acc: Compiled)
    ensures Replace(ps, declared, acc).body == acc.body + Render(ps)
    decreases |ps|
  {
    if ps != [] {
      var next := Step(ps[0], declared, acc);
      ReplaceBody(ps[1..], declared, next);
      assert next.body == acc.body + PieceRender(ps[0]);
    }
  }

  /** Exactly the token names are added to the parameters, and the entry of
      each is its metadata, whatever the accumulator held before: of a
      repeated name one entry remains, written by the last occurrence. */
  lemma {:induction false} ReplaceParameters(ps: seq<Piece>, declared: map<string, Parameter>, acc: Compiled)
    ensures Replace(ps, declared, acc).parameters.Keys == acc.parameters.Keys + TokenNames(ps)
    ensures forall n :: n in Replace(ps, declared, acc).parameters ==>
              Replace(ps, declared, acc).parameters[n] == if n in TokenNames(ps) then Metadata(n, declared) else acc.parameters[n]
    decreases |ps|
  {
    if ps != [] {
      var next := Step(ps[0], declared, acc);
      ReplaceParameters(ps[1..], declared, next);
    }
  }

  /** The pattern body and the parameter map of a mask. */
  function Compile(mask: string, declared: map<string, Parameter>): Compiled
  {
    Replace(Scan(mask), declared, Compiled("", map[]))
  }

  /** `sprintf('#%s$/?\z#A', body)` */
  function FinalPattern(body: string): string
  {
    "#" + body + "$/?\\z#A"
  }

  lemma {:induction false} RenderAppend(xs: seq<Piece>, ys: seq<Piece>)
    ensures Render(xs + ys) == Render(xs) + Render(ys)
    decreases |xs|
  {
    if xs == [] {
      assert xs + ys == ys;
    } else {
      assert (xs + ys)[1..] == xs[1..] + ys;
      RenderAppend(xs[1..], ys);
    }
  }

  /** The rendering splits around any one piece. */
  lemma RenderAround(ps: seq<Piece>, k: nat)
    requires k < |ps|
    ensures Render(ps) == Render(ps[..k]) + PieceRender(ps[k]) + Render(ps[k + 1..])
  {
    var before, p, after := ps[..k], ps[k], ps[k + 1..];
    SplitAt(ps, k);
    RenderAppend(before, [p] + after);
    RenderCons(p, after);
  }

  lemma SplitAt<T>(xs: seq<T>, k: nat)
    requires k < |xs|
    ensures xs == xs[..k] + ([xs[k]] + xs[k + 1..])
  {
  }

  lemma RenderCons(p: Piece, rest: seq<Piece>)
    ensures Render([p] + rest) == PieceRender(p) + Render(rest)
  {
    assert ([p] + rest)[1..] == rest;
  }

  /** Every occurrence of a token is replaced by its fragment, a repeated name
      at each of its occurrences: the body is the rendering of the text before
      the occurrence, the fragment, and the rendering of the rest. */
  lemma CompileReplacesEveryOccurrence(mask: string, declared: map<string, Parameter>)
    ensures forall i: nat, n :: IsTokenAt(mask, i, n) ==>
              exists k :: 0 <= k < |Scan(mask)| && Scan(mask)[k] == Token(n)
                && Source(Scan(mask)[..k]) == mask[..i]
                && Compile(mask, declared).body == Render(Scan(mask)[..k]) + Fragment(n) + Render(Scan(mask)[k + 1..])
  {
    var ps := Scan(mask);
    ReplaceBody(ps, declared, Compiled("", map[]));
    assert Compile(mask, declared).body == Render(ps);
    forall i: nat, n | IsTokenAt(mask, i, n)
      ensures exists k :: 0 <= k < |ps| && ps[k] == Token(n)
                && Source(ps[..k]) == mask[..i]
                && Compile(mask, declared).body == Render(ps[..k]) + Fragment(n) + Render(ps[k + 1..])
    {
      var k := ScanFindsOccurrence(mask, i, n);
      RenderAround(ps, k);
    }
  }

  /** What placeholder compilation produces: the body is the mask with each
      token replaced by its fragment; the parameter keys are exactly the
      token names that occur in the mask (declared parameters without a token
      are ignored); each entry has the token's name and fragment, and the
      declared type and description if the method declares that name, scalar
      and no description otherwise. */
  lemma CompileSpec(mask: string, declared: map<string, Parameter>)
    ensures Source(Scan(mask)) == mask
    ensures Compile(mask, declared).body == Render(Scan(mask))
    ensures forall n :: n in Compile(mask, declared).parameters <==> HasToken(mask, n)
    ensures forall n :: n in Compile(mask, declared).parameters ==>
              var e := Compile(mask, declared).parameters[n];
              e.name == n && e.pattern == Fragment(n)
              && (n in declared ==> e.paramType == declared[n].paramType && e.description == declared[n].description)
              && (n !in declared ==> e.paramType == Scalar && e.description == None)
    ensures forall i: nat, n :: IsTokenAt(mask, i, n) ==>
              exists k :: 0 <= k < |Scan(mask)| && Scan(mask)[k] == Token(n)
                && Source(Scan(mask)[..k]) == mask[..i]
                && Compile(mask, declared).body == Render(Scan(mask)[..k]) + Fragment(n) + Render(Scan(mask)[k + 1..])
  {
    CompileReplacesEveryOccurrence(mask, declared);
    ScanSource(mask);
    ScanTokens(mask);
    ReplaceBody(Scan(mask), declared, Compiled("", map[]));
    ReplaceParameters(Scan(mask), declared, Compiled("", map[]));
    assert "" + Render(Scan(mask)) == Render(Scan(mask));
  }

  /** Pieces without tokens render to the text they came from. */
  lemma {:induction false} RenderLiterals(ps: seq<Piece>)
    requires TokenNames(ps) == {}
    ensures Render(ps) == Source(ps)
  {
    if ps != [] {
      assert ps[0].Literal?;
      RenderLiterals(ps[1..]);
    }
  }

  /** A mask without tokens compiles to itself, with no parameters. */
  lemma CompileWithoutTokens(mask: string, declared: map<string, Parameter>)
    requires forall n :: !HasToken(mask, n)
    ensures Compile(mask, declared).body == mask
    ensures Compile(mask, declared).parameters == map[]
  {
    CompileSpec(mask, declared);
    ScanTokens(mask);
    assert TokenNames(Scan(mask)) == {};
    RenderLiterals(Scan(mask));
  }

  /** Declared parameters matter only at the names of the mask's tokens:
      two declaration maps that agree there compile the mask identically. */
  lemma CompileUsesOnlyTokenDeclarations(mask: string, d1: map<string, Parameter>, d2: map<string, Parameter>)
    requires forall n :: HasToken(mask, n) ==> (n in d1 <==> n in d2)
    requires forall n :: HasToken(mask, n) && n in d1 && n in d2 ==> d1[n] == d2[n]
    ensures Compile(mask, d1) == Compile(mask, d2)
  {
    var ps, init := Scan(mask), Compiled("", map[]);
    ReplaceBody(ps, d1, init);
    ReplaceBody(ps, d2, init);
    ReplaceParameters(ps, d1, init);
    ReplaceParameters(ps, d2, init);
    ScanTokens(mask);
    var p1, p2 := Compile(mask, d1).parameters, Compile(mask, d2).parameters;
    assert p1.Keys == p2.Keys;
    forall n | n in p1 ensures p1[n] == p2[n] {
      assert HasToken(mask, n);
      assert p1[n] == Metadata(n, d1) && p2[n] == Metadata(n, d2);
    }
    assert p1 == p2;
  }
}
