/** Endpoint assembly: every controller method with a non-empty path becomes
    one endpoint record, in controller order and then method order. */
module Serializator {
  import opened Strings
  import opened Schema
  import opened Mask
  import opened FullId
  import opened Placeholders

  /** The record of one routable method of a controller. */
  function Build(c: Controller, m: Method): Endpoint
  {
    var mask := ComposeMask(c.groupPaths, c.path, m.path);
    var compiled := Compile(mask, m.parameters);
    Endpoint(
      Handler(c.className, m.name, m.arguments),
      Group(c.groupIds, c.groupPaths),
      ComposeId(c.groupIds, c.id, m.id),
      c.tags,
      m.httpMethods,
      mask,
      compiled.parameters,
      FinalPattern(compiled.body))
  }

  /** A routable method together with the controller it belongs to. */
  datatype Route = Route(controller: Controller, action: Method)

  /** The methods of ms with a non-empty path, in order, paired with c. */
  function Routes(c: Controller, ms: seq<Method>): seq<Route>
    decreases |ms|
  {
    if ms == [] then []
    else
      var m := ms[|ms| - 1];
      Routes(c, ms[..|ms| - 1]) + (if IsEmpty(m.path) then [] else [Route(c, m)])
  }

  /** The routable methods of all controllers: controller order, then method order. */
  function AllRoutes(controllers: seq<Controller>): seq<Route>
    decreases |controllers|
  {
    if controllers == [] then []
    else
      var c := controllers[|controllers| - 1];
      AllRoutes(controllers[..|controllers| - 1]) + Routes(c, c.methods)
  }

  /** The record of a route. */
  function RouteRecord(r: Route): Endpoint
  {
    Build(r.controller, r.action)
  }

  /** f applied to every element, in order. */
  function Map<A, B>(f: A -> B, xs: seq<A>): (ys: seq<B>)
    ensures |ys| == |xs|
    ensures forall k :: 0 <= k < |xs| ==> ys[k] == f(xs[k])
  {
    seq(|xs|, k requires 0 <= k < |xs| => f(xs[k]))
  }

  lemma MapAppend<A, B>(f: A -> B, xs: seq<A>, ys: seq<A>)
    ensures Map(f, xs + ys) == Map(f, xs) + Map(f, ys)
  {
    var a, b := Map(f, xs + ys), Map(f, xs) + Map(f, ys);
    forall k | 0 <= k < |a| ensures a[k] == b[k] {
      if k < |xs| {
        assert (xs + ys)[k] == xs[k];
      } else {
        assert (xs + ys)[k] == ys[k - |xs|];
      }
    }
  }

  /** One record per route, in the same order. */
  function Records(rs: seq<Route>): (es: seq<Endpoint>)
    ensures |es| == |rs|
    ensures forall k :: 0 <= k < |rs| ==> es[k] == Build(rs[k].controller, rs[k].action)
  {
    Map(RouteRecord, rs)
  }

  /** The schema of a list of controllers. */
  function SchemaOf(controllers: seq<Controller>): seq<Endpoint>
  {
    Records(AllRoutes(controllers))
  }

  /** `ArraySerializator::serialize`: the loop over the controllers, appending
      the records of each controller's methods; the records of all controllers,
      in order. */
  method Serialize(controllers: seq<Controller>) returns (schema: seq<Endpoint>)
    ensures schema == SchemaOf(controllers)
  {
    schema := [];
    var i := 0;
    while i < |controllers|
      invariant 0 <= i <= |controllers|
      invariant schema == Records(AllRoutes(controllers[..i]))
    {
      var records := ControllerEndpoints(controllers[i]);
      AllRoutesStep(controllers, i);
      RecordsAppend(AllRoutes(controllers[..i]), Routes(controllers[i], controllers[i].methods));
      schema := schema + records;
      i := i + 1;
    }
    assert controllers[..i] == controllers;
  }

  /** The inner loop of `serialize`: the records of one controller's methods,
      skipping every method whose path is empty. */
  method ControllerEndpoints(controller: Controller) returns (records: seq<Endpoint>)
    ensures records == Records(Routes(controller, controller.methods))
  {
    records := [];
    var j := 0;
    while j < |controller.methods|
      invariant 0 <= j <= |controller.methods|
      invariant records == Records(Routes(controller, controller.methods[..j]))
    {
      var m := controller.methods[j];
      RoutesStep(controller, controller.methods, j);
      if IsEmpty(m.path) {
        j := j + 1;
        continue;
      }
      var endpoint := Build(controller, m);
      RecordsStep(Routes(controller, controller.methods[..j]), Route(controller, m));
      records := records + [endpoint];
      j := j + 1;
    }
    assert controller.methods[..j] == controller.methods;
  }

  /** One more method: its route, if it has a path, comes last. */
  lemma RoutesStep(c: Controller, ms: seq<Method>, j: nat)
    requires j < |ms|
    ensures Routes(c, ms[..j + 1]) == Routes(c, ms[..j]) + (if IsEmpty(ms[j].path) then [] else [Route(c, ms[j])])
  {
    assert ms[..j + 1][..j] == ms[..j];
  }

  /** One more controller: its routes come last. */
  lemma AllRoutesStep(cs: seq<Controller>, i: nat)
    requires i < |cs|
    ensures AllRoutes(cs[..i + 1]) == AllRoutes(cs[..i]) + Routes(cs[i], cs[i].methods)
  {
    assert cs[..i + 1][..i] == cs[..i];
  }

  /** One more route: its record comes last. */
  lemma RecordsStep(rs: seq<Route>, r: Route)
    ensures Records(rs + [r]) == Records(rs) + [Build(r.controller, r.action)]
  {
    assert (rs + [r])[|rs|] == r;
    assert forall k :: 0 <= k < |rs| ==> (rs + [r])[k] == rs[k];
  }

  // ---------------------------------------------------------------------
  // Properties of the assembled schema

  lemma {:induction false} RoutesAppend(c: Controller, xs: seq<Method>, ys: seq<Method>)
    ensures Routes(c, xs + ys) == Routes(c, xs) + Routes(c, ys)
    decreases |ys|
  {
    if ys == [] {
      assert xs + ys == xs;
    } else {
      var zs := xs + ys;
      assert zs[..|zs| - 1] == xs + ys[..|ys| - 1];
      assert zs[|zs| - 1] == ys[|ys| - 1];
      RoutesAppend(c, xs, ys[..|ys| - 1]);
    }
  }

  lemma {:induction false} AllRoutesAppend(xs: seq<Controller>, ys: seq<Controller>)
    ensures AllRoutes(xs + ys) == AllRoutes(xs) + AllRoutes(ys)
    decreases |ys|
  {
    if ys == [] {
      assert xs + ys == xs;
    } else {
      var zs, init, last := xs + ys, ys[..|ys| - 1], ys[|ys| - 1];
      assert zs[..|zs| - 1] == xs + init;
      assert zs[|zs| - 1] == last;
      assert AllRoutes(zs) == AllRoutes(xs + init) + Routes(last, last.methods);
      assert AllRoutes(ys) == AllRoutes(init) + Routes(last, last.methods);
      AllRoutesAppend(xs, init);
    }
  }

  lemma RecordsAppend(xs: seq<Route>, ys: seq<Route>)
    ensures Records(xs + ys) == Records(xs) + Records(ys)
  {
    MapAppend(RouteRecord, xs, ys);
  }

  /** The schema of a concatenation of controller lists is the concatenation
      of their schemas: records keep controller order. */
  lemma SchemaAppend(xs: seq<Controller>, ys: seq<Controller>)
    ensures SchemaOf(xs + ys) == SchemaOf(xs) + SchemaOf(ys)
  {
    AllRoutesAppend(xs, ys);
    RecordsAppend(AllRoutes(xs), AllRoutes(ys));
  }

  /** A method with an empty path adds no route; any other adds exactly one,
      at its own place between the routes of the methods before and after it. */
  lemma RoutesAround(c: Controller, before: seq<Method>, m: Method, after: seq<Method>)
    ensures Routes(c, before + [m] + after)
         == Routes(c, before) + (if IsEmpty(m.path) then [] else [Route(c, m)]) + Routes(c, after)
  {
    RoutesAppend(c, before + [m], after);
    RoutesAppend(c, before, [m]);
    assert [m][..0] == [];
  }

  /** In the schema of one controller, a method with an empty path produces
      no record and any other method produces exactly its own record, after
      the records of the methods before it and before those of the methods
      after it. */
  lemma SchemaOfMethod(c: Controller, before: seq<Method>, m: Method, after: seq<Method>)
    requires c.methods == before + [m] + after
    ensures SchemaOf([c])
         == Records(Routes(c, before)) + (if IsEmpty(m.path) then [] else [Build(c, m)]) + Records(Routes(c, after))
  {
    assert [c][..0] == [];
    assert AllRoutes([c]) == [] + Routes(c, c.methods);
    assert SchemaOf([c]) == Records(Routes(c, c.methods));
    RoutesAround(c, before, m, after);
    var mid := if IsEmpty(m.path) then [] else [Route(c, m)];
    RecordsAppend(Routes(c, before) + mid, Routes(c, after));
    RecordsAppend(Routes(c, before), mid);
    assert Records(mid) == if IsEmpty(m.path) then [] else [Build(c, m)];
  }

  /** The number of methods with a non-empty path. */
  function RoutableCount(ms: seq<Method>): nat
  {
    if ms == [] then 0 else (if IsEmpty(ms[0].path) then 0 else 1) + RoutableCount(ms[1..])
  }

  function TotalRoutable(controllers: seq<Controller>): nat
  {
    if controllers == [] then 0 else RoutableCount(controllers[0].methods) + TotalRoutable(controllers[1..])
  }

  lemma {:induction false} RoutesCount(c: Controller, ms: seq<Method>)
    ensures |Routes(c, ms)| == RoutableCount(ms)
    decreases |ms|
  {
    if ms != [] {
      RoutesCount(c, ms[1..]);
      RoutesAppend(c, [ms[0]], ms[1..]);
      assert [ms[0]] + ms[1..] == ms;
      assert [ms[0]][..0] == [];
    }
  }

  /** Exactly one record per method with a non-empty path. */
  lemma {:induction false} SchemaCount(controllers: seq<Controller>)
    ensures |SchemaOf(controllers)| == TotalRoutable(controllers)
    decreases |controllers|
  {
    if controllers != [] {
      SchemaCount(controllers[1..]);
      AllRoutesAppend([controllers[0]], controllers[1..]);
      assert [controllers[0]] + controllers[1..] == controllers;
      assert [controllers[0]][..0] == [];
      RoutesCount(controllers[0], controllers[0].methods);
    }
  }

  /** Every route of a controller is one of its methods, with a non-empty path. */
  lemma {:induction false} RouteOrigin(c: Controller, ms: seq<Method>, k: nat) returns (j: nat)
    requires k < |Routes(c, ms)|
    ensures j < |ms| && !IsEmpty(ms[j].path) && Routes(c, ms)[k] == Route(c, ms[j])
    decreases |ms|
  {
    var init := ms[..|ms| - 1];
    if k < |Routes(c, init)| {
      j := RouteOrigin(c, init, k);
    } else {
      j := |ms| - 1;
    }
  }

  /** Every record of the schema is the record of a method with a non-empty
      path of some controller of the input. */
  lemma {:induction false} SchemaRecordOrigin(controllers: seq<Controller>, k: nat)
    requires k < |SchemaOf(controllers)|
    ensures exists i, j :: 0 <= i < |controllers| && 0 <= j < |controllers[i].methods|
              && !IsEmpty(controllers[i].methods[j].path)
              && SchemaOf(controllers)[k] == Build(controllers[i], controllers[i].methods[j])
    decreases |controllers|
  {
    var n := |controllers| - 1;
    var init := controllers[..n];
    var c := controllers[n];
    assert AllRoutes(controllers) == AllRoutes(init) + Routes(c, c.methods);
    if k < |AllRoutes(init)| {
      SchemaRecordOrigin(init, k);
      var i, j :| 0 <= i < |init| && 0 <= j < |init[i].methods|
              && !IsEmpty(init[i].methods[j].path)
              && SchemaOf(init)[k] == Build(init[i], init[i].methods[j]);
      assert controllers[i] == init[i];
      assert SchemaOf(controllers)[k] == SchemaOf(init)[k];
    } else {
      var j := RouteOrigin(c, c.methods, k - |AllRoutes(init)|);
      assert SchemaOf(controllers)[k] == Build(controllers[n], controllers[n].methods[j]);
    }
  }

  /** What each record holds: the handler, group, tags and HTTP methods are
      copied from the input; the mask is in normal form; the id is the full id,
      absent exactly when the method id is empty; the parameter keys are
      exactly the tokens of the mask, each entry holding the token's metadata;
      the pattern is the anchored rendering of the mask. */
  lemma BuildSpec(c: Controller, m: Method)
    ensures var e := Build(c, m);
      e.handler == Handler(c.className, m.name, m.arguments)
      && e.group == Group(c.groupIds, c.groupPaths)
      && e.tags == c.tags && e.methods == m.httpMethods
      && e.mask == ComposeMask(c.groupPaths, c.path, m.path)
      && IsNormalMask(e.mask)
      && e.id == ComposeId(c.groupIds, c.id, m.id)
      && (e.id.None? <==> IsEmpty(m.id))
      && (forall n :: n in e.parameters <==> HasToken(e.mask, n))
      && (forall n :: n in e.parameters ==> e.parameters[n] == Metadata(n, m.parameters))
      && e.pattern == "#" + Render(Scan(e.mask)) + "$/?\\z#A"
  {
    var mask := ComposeMask(c.groupPaths, c.path, m.path);
    CompileSpec(mask, m.parameters);
  }
}
