/** Mask composition: the group paths, the controller path and the method
    path joined with '/', runs of slashes collapsed (`Helpers::slashless`),
    '/' trimmed from both ends and a single '/' put in front. */
module Mask {
  import opened Strings

  /** No two neighbouring characters are both '/'. */
  predicate NoDoubleSlash(s: string) {
    forall i :: 0 < i < |s| ==> !(s[i - 1] == '/' && s[i] == '/')
  }

  predicate OnlySlashes(s: string) {
    forall i :: 0 <= i < |s| ==> s[i] == '/'
  }

  /** The normal form of a mask: one leading '/', no "//", and a trailing '/'
      only for the root mask "/". */
  predicate IsNormalMask(m: string) {
    |m| > 0 && m[0] == '/' && NoDoubleSlash(m) && (m[|m| - 1] == '/' ==> m == "/")
  }

  // ---------------------------------------------------------------------
  // Helpers::slashless

  /** Collapses every run of two or more '/' into a single '/'. */
  function Slashless(s: string): (r: string)
    ensures NoDoubleSlash(r)
    ensures |s| > 0 ==> |r| > 0 && r[0] == s[0]
    ensures OnlySlashes(s) ==> OnlySlashes(r)
    decreases |s|
  {
    if |s| < 2 then s
    else if s[0] == '/' && s[1] == '/' then Slashless(s[1..])
    else [s[0]] + Slashless(s[1..])
  }

  /** Slashless leaves a string without "//" as it is. Together with
      SlashlessCollapse this pins it down: it is the normal form of
      rewriting "//" to "/". */
  lemma {:induction false} SlashlessFixed(s: string)
    requires NoDoubleSlash(s)
    ensures Slashless(s) == s
    decreases |s|
  {
    if |s| >= 2 {
      assert !(s[0] == '/' && s[1] == '/');
      assert NoDoubleSlash(s[1..]) by {
        forall i | 0 < i < |s[1..]| ensures !(s[1..][i - 1] == '/' && s[1..][i] == '/') {
          assert s[1..][i - 1] == s[i] && s[1..][i] == s[i + 1];
        }
      }
      SlashlessFixed(s[1..]);
      assert s == [s[0]] + s[1..];
    }
  }

  /** Rewriting one "//" to "/" does not change the result. */
  lemma {:induction false} SlashlessCollapse(a: string, b: string)
    ensures Slashless(a + "//" + b) == Slashless(a + "/" + b)
    decreases |a|
  {
    var s1, s2 := a + "//" + b, a + "/" + b;
    if a == "" {
      assert s1 == "//" + b && s2 == "/" + b;
      assert s1[1..] == s2;
    } else {
      assert s1[0] == s2[0] == a[0];
      assert s1[1] == s2[1];
      assert s1[1..] == a[1..] + "//" + b;
      assert s2[1..] == a[1..] + "/" + b;
      SlashlessCollapse(a[1..], b);
    }
  }

  /** A leading '/' either merges with the string's own leading '/' or stays. */
  lemma SlashlessLeading(t: string)
    ensures Slashless("/" + t) == if |t| > 0 && t[0] == '/' then Slashless(t) else "/" + Slashless(t)
  {
    assert ("/" + t)[1..] == t;
    if |t| == 0 {
      assert "/" + t == "/";
    }
  }

  /** A trailing '/' either merges with the string's own trailing '/' or stays. */
  lemma {:induction false} SlashlessTrailing(a: string)
    ensures Slashless(a + "/") == if |a| > 0 && a[|a| - 1] == '/' then Slashless(a) else Slashless(a) + "/"
    decreases |a|
  {
    var s := a + "/";
    if |a| == 0 {
      assert s == "/";
    } else if |a| == 1 {
      assert s[1..] == "/";
      if a[0] != '/' {
        assert Slashless(s) == [a[0]] + "/";
        assert a == [a[0]];
      }
    } else {
      assert s[0] == a[0] && s[1] == a[1];
      assert s[1..] == a[1..] + "/";
      SlashlessTrailing(a[1..]);
      assert a[1..][|a[1..]| - 1] == a[|a| - 1];
      if !(a[0] == '/' && a[1] == '/') {
        assert Slashless(s) == [a[0]] + Slashless(a[1..] + "/");
        assert Slashless(a) == [a[0]] + Slashless(a[1..]);
      }
    }
  }

  // ---------------------------------------------------------------------
  // trim($s, '/')

  /** Strips every '/' from both ends. */
  function Trim(s: string): (r: string)
    ensures r == "" || (r[0] != '/' && r[|r| - 1] != '/')
    ensures NoDoubleSlash(s) ==> NoDoubleSlash(r)
    ensures OnlySlashes(s) ==> r == ""
    ensures |r| <= |s|
    decreases |s|
  {
    if |s| > 0 && s[0] == '/' then
      NoDoubleSlashSlice(s, 1, |s|);
      Trim(s[1..])
    else if |s| > 0 && s[|s| - 1] == '/' then
      NoDoubleSlashSlice(s, 0, |s| - 1);
      Trim(s[..|s| - 1])
    else
      s
  }

  /** Every slice of a string without "//" is without "//". */
  lemma NoDoubleSlashSlice(s: string, lo: nat, hi: nat)
    requires lo <= hi <= |s|
    ensures NoDoubleSlash(s) ==> NoDoubleSlash(s[lo..hi])
  {
    if NoDoubleSlash(s) {
      var p := s[lo..hi];
      forall i | 0 < i < |p| ensures !(p[i - 1] == '/' && p[i] == '/') {
        assert p[i - 1] == s[lo + i - 1] && p[i] == s[lo + i];
      }
    }
  }

  /** A string with no '/' at either end is already trimmed. */
  lemma TrimFixed(s: string)
    requires s == "" || (s[0] != '/' && s[|s| - 1] != '/')
    ensures Trim(s) == s
  {
  }

  lemma TrimLeading(s: string)
    ensures Trim("/" + s) == Trim(s)
  {
    assert ("/" + s)[1..] == s;
  }

  lemma {:induction false} TrimTrailing(s: string)
    ensures Trim(s + "/") == Trim(s)
    decreases |s|
  {
    var t := s + "/";
    assert t[..|t| - 1] == s;
    if |s| == 0 {
      assert t == "/";
    } else if s[0] == '/' {
      assert t[1..] == s[1..] + "/";
      TrimTrailing(s[1..]);
    }
  }

  // ---------------------------------------------------------------------
  // Mask composition

  /** `'/' . trim(Helpers::slashless($joined), '/')` */
  function Normalize(joined: string): (m: string)
    ensures IsNormalMask(m)
  {
    var t := Trim(Slashless(joined));
    assert NoDoubleSlash("/" + t) by {
      forall i | 0 < i < |"/" + t| ensures !(("/" + t)[i - 1] == '/' && ("/" + t)[i] == '/') {
        if i > 1 {
          assert ("/" + t)[i - 1] == t[i - 2] && ("/" + t)[i] == t[i - 1];
        }
      }
    }
    "/" + t
  }

  /** The full mask of an endpoint (@GroupPath(s) + @ControllerPath + @Path). */
  function ComposeMask(groupPaths: seq<string>, controllerPath: string, methodPath: string): (mask: string)
    ensures IsNormalMask(mask)
  {
    Normalize(Join('/', groupPaths + [controllerPath, methodPath]))
  }

  /** A leading '/' in the joined string makes no difference. */
  lemma NormalizeLeading(t: string)
    ensures Normalize("/" + t) == Normalize(t)
  {
    SlashlessLeading(t);
    if !(|t| > 0 && t[0] == '/') {
      TrimLeading(Slashless(t));
    }
  }

  /** A trailing '/' in the joined string makes no difference. */
  lemma NormalizeTrailing(a: string)
    ensures Normalize(a + "/") == Normalize(a)
  {
    SlashlessTrailing(a);
    if !(|a| > 0 && a[|a| - 1] == '/') {
      TrimTrailing(Slashless(a));
    }
  }

  /** An empty segment anywhere in the list leaves the mask unchanged. */
  lemma NormalizeIgnoresEmptySegment(xs: seq<string>, ys: seq<string>)
    ensures Normalize(Join('/', xs + [""] + ys)) == Normalize(Join('/', xs + ys))
  {
    if xs == [] && ys == [] {
      assert xs + [""] + ys == [""];
      assert xs + ys == [];
    } else if xs == [] {
      assert xs + [""] + ys == [""] + ys;
      assert xs + ys == ys;
      EmptyFirstSegment(ys);
    } else if ys == [] {
      assert xs + [""] + ys == xs + [""];
      assert xs + ys == xs;
      EmptyLastSegment(xs);
    } else {
      EmptyMiddleSegment(xs, ys);
    }
  }

  lemma EmptyFirstSegment(ys: seq<string>)
    requires ys != []
    ensures Normalize(Join('/', [""] + ys)) == Normalize(Join('/', ys))
  {
    JoinAppend('/', [""], ys);
    NormalizeLeading(Join('/', ys));
  }

  lemma EmptyLastSegment(xs: seq<string>)
    requires xs != []
    ensures Normalize(Join('/', xs + [""])) == Normalize(Join('/', xs))
  {
    JoinAppend('/', xs, [""]);
    assert Join('/', [""]) == "";
    assert Join('/', xs + [""]) == Join('/', xs) + "/";
    NormalizeTrailing(Join('/', xs));
  }

  lemma EmptyMiddleSegment(xs: seq<string>, ys: seq<string>)
    requires xs != [] && ys != []
    ensures Normalize(Join('/', xs + [""] + ys)) == Normalize(Join('/', xs + ys))
  {
    var a, b := Join('/', xs), Join('/', ys);
    JoinAppend('/', xs, [""] + ys);
    JoinAppend('/', [""], ys);
    assert xs + [""] + ys == xs + ([""] + ys);
    assert Join('/', xs + [""] + ys) == a + "//" + b;
    JoinAppend('/', xs, ys);
    SlashlessCollapse(a, b);
  }

  /** An empty group path inserted at any position leaves the mask unchanged. */
  lemma MaskIgnoresEmptyGroupPath(groupPaths: seq<string>, i: nat, controllerPath: string, methodPath: string)
    requires i <= |groupPaths|
    ensures ComposeMask(groupPaths[..i] + [""] + groupPaths[i..], controllerPath, methodPath)
         == ComposeMask(groupPaths, controllerPath, methodPath)
  {
    var xs, ys := groupPaths[..i], groupPaths[i..] + [controllerPath, methodPath];
    assert (groupPaths[..i] + [""] + groupPaths[i..]) + [controllerPath, methodPath] == xs + [""] + ys;
    assert groupPaths + [controllerPath, methodPath] == xs + ys;
    NormalizeIgnoresEmptySegment(xs, ys);
  }

  /** An empty controller path gives the mask of the group paths and the method path alone. */
  lemma MaskIgnoresEmptyControllerPath(groupPaths: seq<string>, methodPath: string)
    ensures ComposeMask(groupPaths, "", methodPath) == Normalize(Join('/', groupPaths + [methodPath]))
  {
    assert groupPaths + ["", methodPath] == groupPaths + [""] + [methodPath];
    NormalizeIgnoresEmptySegment(groupPaths, [methodPath]);
  }

  /** Normalizing a mask that is already in normal form gives it back. */
  lemma NormalizeFixed(m: string)
    requires IsNormalMask(m)
    ensures Normalize(m) == m
  {
    SlashlessFixed(m);
    var t := m[1..];
    assert m == "/" + t;
    TrimLeading(t);
    if |t| > 0 {
      assert t[0] == m[1] && t[|t| - 1] == m[|m| - 1];
      assert m[1] != '/';
    }
    TrimFixed(t);
  }

  /** Composition is idempotent: an already composed mask used as the only
      path composes to itself. */
  lemma ComposeMaskIdempotent(mask: string)
    requires IsNormalMask(mask)
    ensures ComposeMask([], "", mask) == mask
  {
    assert [] + ["", mask] == ["", mask];
    assert Join('/', ["", mask]) == "/" + mask;
    NormalizeLeading(mask);
    NormalizeFixed(mask);
  }

  lemma {:induction false} JoinOnlySlashes(parts: seq<string>)
    requires forall k :: 0 <= k < |parts| ==> OnlySlashes(parts[k])
    ensures OnlySlashes(Join('/', parts))
    decreases |parts|
  {
    if |parts| > 1 {
      JoinOnlySlashes(parts[1..]);
      var rest := Join('/', parts[1..]);
      assert Join('/', parts) == parts[0] + ("/" + rest);
      assert OnlySlashes("/" + rest) by {
        forall i | 0 <= i < |"/" + rest| ensures ("/" + rest)[i] == '/' {
          if i > 0 { assert ("/" + rest)[i] == rest[i - 1]; }
        }
      }
      assert OnlySlashes(parts[0]);
    }
  }

  /** When every segment is empty or made only of slashes, the mask is the root "/". */
  lemma MaskOfSlashes(groupPaths: seq<string>, controllerPath: string, methodPath: string)
    requires forall k :: 0 <= k < |groupPaths| ==> OnlySlashes(groupPaths[k])
    requires OnlySlashes(controllerPath) && OnlySlashes(methodPath)
    ensures ComposeMask(groupPaths, controllerPath, methodPath) == "/"
  {
    var parts := groupPaths + [controllerPath, methodPath];
    assert forall k :: 0 <= k < |parts| ==> OnlySlashes(parts[k]) by {
      forall k | 0 <= k < |parts| ensures OnlySlashes(parts[k]) {
        if k < |groupPaths| { assert parts[k] == groupPaths[k]; }
        else if k == |groupPaths| { assert parts[k] == controllerPath; }
        else { assert parts[k] == methodPath; }
      }
    }
    JoinOnlySlashes(parts);
  }

  // ---------------------------------------------------------------------
  // The characters other than '/' survive composition, in order.

  /** The characters of s other than '/', in order. */
  function Letters(s: string): string
  {
    if s == "" then "" else (if s[0] == '/' then "" else [s[0]]) + Letters(s[1..])
  }

  /** The letters of the parts, concatenated in order. */
  function SegmentLetters(parts: seq<string>): string
  {
    if parts == [] then "" else Letters(parts[0]) + SegmentLetters(parts[1..])
  }

  lemma LettersOfSlash()
    ensures Letters("/") == ""
  {
    assert "/"[1..] == "";
  }

  lemma {:induction false} LettersConcat(a: string, b: string)
    ensures Letters(a + b) == Letters(a) + Letters(b)
    decreases |a|
  {
    if a == "" {
      assert a + b == b;
    } else {
      assert (a + b)[0] == a[0];
      assert (a + b)[1..] == a[1..] + b;
      LettersConcat(a[1..], b);
    }
  }

  lemma {:induction false} SlashlessLetters(s: string)
    ensures Letters(Slashless(s)) == Letters(s)
    decreases |s|
  {
    if |s| >= 2 {
      SlashlessLetters(s[1..]);
      if !(s[0] == '/' && s[1] == '/') {
        LettersConcat([s[0]], Slashless(s[1..]));
        assert ([s[0]])[1..] == "";
      }
    }
  }

  lemma {:induction false} TrimLetters(s: string)
    ensures Letters(Trim(s)) == Letters(s)
    decreases |s|
  {
    if |s| > 0 && s[0] == '/' {
      TrimLetters(s[1..]);
    } else if |s| > 0 && s[|s| - 1] == '/' {
      TrimLetters(s[..|s| - 1]);
      assert s == s[..|s| - 1] + "/";
      LettersConcat(s[..|s| - 1], "/");
      LettersOfSlash();
    }
  }

  lemma {:induction false} JoinLetters(parts: seq<string>)
    ensures Letters(Join('/', parts)) == SegmentLetters(parts)
    decreases |parts|
  {
    if |parts| == 1 {
      assert parts[1..] == [];
    } else if |parts| > 1 {
      JoinLetters(parts[1..]);
      var rest := Join('/', parts[1..]);
      assert Join('/', parts) == parts[0] + "/" + rest;
      LettersConcat(parts[0] + "/", rest);
      LettersConcat(parts[0], "/");
      LettersOfSlash();
      assert SegmentLetters(parts) == Letters(parts[0]) + SegmentLetters(parts[1..]);
    }
  }

  /** The mask holds exactly the non-slash characters of the segments, in
      segment order: composition only adds, merges and drops slashes. */
  lemma MaskLetters(groupPaths: seq<string>, controllerPath: string, methodPath: string)
    ensures Letters(ComposeMask(groupPaths, controllerPath, methodPath))
         == SegmentLetters(groupPaths + [controllerPath, methodPath])
  {
    var joined := Join('/', groupPaths + [controllerPath, methodPath]);
    JoinLetters(groupPaths + [controllerPath, methodPath]);
    SlashlessLetters(joined);
    TrimLetters(Slashless(joined));
    var t := Trim(Slashless(joined));
    LettersConcat("/", t);
    LettersOfSlash();
  }

  // ---------------------------------------------------------------------
  // Segments that need no normalization

  /** A segment that is non-empty and holds no '/'. */
  predicate IsPlainSegment(p: string) {
    p != "" && '/' !in p
  }

  /** Two strings without "//", the first not ending and the second not
      starting with '/', joined by one '/', are without "//". */
  lemma NoDoubleSlashAround(a: string, b: string)
    requires a != "" && b != "" && a[|a| - 1] != '/' && b[0] != '/'
    requires NoDoubleSlash(a) && NoDoubleSlash(b)
    ensures NoDoubleSlash(a + "/" + b)
  {
    var t := a + "/" + b;
    forall i | 0 < i < |t| ensures !(t[i - 1] == '/' && t[i] == '/') {
      if i < |a| {
        assert t[i - 1] == a[i - 1] && t[i] == a[i];
      } else if i == |a| {
        assert t[i - 1] == a[|a| - 1];
      } else if i == |a| + 1 {
        assert t[i] == b[0];
      } else {
        assert t[i - 1] == b[i - 2 - |a|] && t[i] == b[i - 1 - |a|];
      }
    }
  }

  /** Plain segments join to a string without "//" that neither starts nor ends with '/'. */
  lemma {:induction false} JoinPlain(parts: seq<string>)
    requires |parts| > 0
    requires forall k :: 0 <= k < |parts| ==> IsPlainSegment(parts[k])
    ensures var j := Join('/', parts); j != "" && j[0] != '/' && j[|j| - 1] != '/' && NoDoubleSlash(j)
    decreases |parts|
  {
    var p := parts[0];
    assert IsPlainSegment(p);
    assert p[0] in p && p[|p| - 1] in p;
    assert NoDoubleSlash(p) by {
      forall i | 0 < i < |p| ensures p[i] != '/' {
        assert p[i] in p;
      }
    }
    if |parts| > 1 {
      assert forall k :: 0 <= k < |parts[1..]| ==> IsPlainSegment(parts[1..][k]) by {
        forall k | 0 <= k < |parts[1..]| ensures IsPlainSegment(parts[1..][k]) {
          assert parts[1..][k] == parts[k + 1];
        }
      }
      JoinPlain(parts[1..]);
      var rest := Join('/', parts[1..]);
      assert Join('/', parts) == p + "/" + rest;
      NoDoubleSlashAround(p, rest);
    }
  }

  /** Plain segments need no normalization: the mask is '/' followed by their join. */
  lemma NormalizePlain(parts: seq<string>)
    requires |parts| > 0
    requires forall k :: 0 <= k < |parts| ==> IsPlainSegment(parts[k])
    ensures Normalize(Join('/', parts)) == "/" + Join('/', parts)
  {
    JoinPlain(parts);
    SlashlessFixed(Join('/', parts));
    TrimFixed(Join('/', parts));
  }

  /** When every path is a plain segment, the mask is '/' followed by the
      paths joined with '/'. */
  lemma MaskOfPlainSegments(groupPaths: seq<string>, controllerPath: string, methodPath: string)
    requires forall k :: 0 <= k < |groupPaths| ==> IsPlainSegment(groupPaths[k])
    requires IsPlainSegment(controllerPath) && IsPlainSegment(methodPath)
    ensures ComposeMask(groupPaths, controllerPath, methodPath) == "/" + Join('/', groupPaths + [controllerPath, methodPath])
  {
    PlainParts(groupPaths, controllerPath, methodPath);
    NormalizePlain(groupPaths + [controllerPath, methodPath]);
  }

  lemma PlainParts(groupPaths: seq<string>, controllerPath: string, methodPath: string)
    requires forall k :: 0 <= k < |groupPaths| ==> IsPlainSegment(groupPaths[k])
    requires IsPlainSegment(controllerPath) && IsPlainSegment(methodPath)
    ensures var parts := groupPaths + [controllerPath, methodPath];
      forall k :: 0 <= k < |parts| ==> IsPlainSegment(parts[k])
  {
    var parts := groupPaths + [controllerPath, methodPath];
    forall k | 0 <= k < |parts| ensures IsPlainSegment(parts[k]) {
      if k < |groupPaths| { assert parts[k] == groupPaths[k]; }
    }
  }

  // ---------------------------------------------------------------------
  // Examples

  lemma JoinTwo(parts: seq<string>)
    requires |parts| == 2
    ensures Join('/', parts) == parts[0] + "/" + parts[1]
  {
    assert parts[1..][1..] == [];
  }

  lemma JoinFour(parts: seq<string>)
    requires |parts| == 4
    ensures Join('/', parts) == parts[0] + "/" + parts[1] + "/" + parts[2] + "/" + parts[3]
  {
    JoinTwo(parts[2..]);
    assert parts[1..][1..] == parts[2..];
  }

  /** Segments without slashes of their own are joined with single slashes. */
  // The inputs are parameters fixed by `requires`, so that the solver does not
  // unfold ComposeMask on literal strings.
  lemma MaskExampleNested(groupPaths: seq<string>, controllerPath: string, methodPath: string)
    requires groupPaths == ["api", "v1"] && controllerPath == "users" && methodPath == "{id}"
    ensures ComposeMask(groupPaths, controllerPath, methodPath) == "/api/v1/users/{id}"
  {
    assert IsPlainSegment(groupPaths[0]) && IsPlainSegment(groupPaths[1]);
    MaskOfPlainSegments(groupPaths, controllerPath, methodPath);
    var parts := groupPaths + [controllerPath, methodPath];
    JoinFour(parts);
    assert parts[0] == "api" && parts[1] == "v1" && parts[2] == "users" && parts[3] == "{id}";
    NestedText();
  }

  lemma NestedText()
    ensures "/" + ("api" + "/" + "v1" + "/" + "users" + "/" + "{id}") == "/api/v1/users/{id}"
  {
  }

  /** Empty segments collapse away: ["", "foo", "", "bar"] gives "/foo/bar". */
  // The inputs are parameters fixed by `requires`, so that the solver does not
  // unfold ComposeMask on literal strings.
  lemma MaskExampleEmptySegments(groupPaths: seq<string>, controllerPath: string, methodPath: string)
    requires groupPaths == ["", "foo"] && controllerPath == "" && methodPath == "bar"
    ensures ComposeMask(groupPaths, controllerPath, methodPath) == "/foo/bar"
  {
    var rest := groupPaths[1..];
    assert groupPaths == rest[..0] + [""] + rest[0..];
    MaskIgnoresEmptyGroupPath(rest, 0, controllerPath, methodPath);
    MaskIgnoresEmptyControllerPath(rest, methodPath);
    var parts := rest + [methodPath];
    assert parts == ["foo", "bar"];
    assert forall k :: 0 <= k < |parts| ==> IsPlainSegment(parts[k]);
    NormalizePlain(parts);
    JoinTwo(parts);
  }
}
