/** EndpointsController: the route table from "<VERB> <path>" to the
    controller instance and method that serve it, built at startup from the
    @Path methods of each controller class and only read afterwards. */
module Endpoints {
  import opened Wrappers
  import opened Descriptors
  import opened Wire

  /** `new Endpoint(controllerInstance, method)`. */
  datatype Endpoint = Endpoint(controller: Instance, handler: MethodDesc)

  /** Exceptions that `Endpoint.invoke` lets escape: IllegalArgumentException
      for a wrong number of arguments, and the RuntimeException wrapping an
      InvocationTargetException when the endpoint method itself throws. */
  datatype InvokeError = WrongArity(methodName: string) | EndpointThrew(methodName: string)

  /** `getHttpMethod`: the verb prefix of the route key. @GET is checked
      first, so a method carrying both markers registers as GET. */
  function HttpMethod(m: MethodDesc): (r: Result<string, StartupError>)
    ensures r.Ok? <==> m.get || m.post
    ensures r.Ok? ==> r.value == "GET " || r.value == "POST "
    ensures m.get ==> r == Ok("GET ")
    ensures !m.get && m.post ==> r == Ok("POST ")
    ensures r.Err? ==> r.error == UnsupportedHttpMethod(m.name)
  {
    if m.get then Ok("GET ")
    else if m.post then Ok("POST ")
    else Err(UnsupportedHttpMethod(m.name))
  }

  /** The route key of a @Path method: its verb prefix followed by the path. */
  function RouteKey(m: MethodDesc): (r: Result<string, StartupError>)
    requires m.path.Some?
    ensures r.Ok? <==> HttpMethod(m).Ok?
    ensures r.Ok? ==> r.value == "GET " + m.path.value || r.value == "POST " + m.path.value
  {
    match HttpMethod(m)
    case Err(e) => Err(e)
    case Ok(verb) => Ok(verb + m.path.value)
  }

  /** Distinct verbs or distinct paths give distinct route keys: a key
      determines the verb prefix and the path it was built from. */
  lemma RouteKeyInjective(m1: MethodDesc, m2: MethodDesc)
    requires m1.path.Some? && m2.path.Some?
    requires RouteKey(m1).Ok? && RouteKey(m2).Ok? && RouteKey(m1).value == RouteKey(m2).value
    ensures HttpMethod(m1) == HttpMethod(m2) && m1.path == m2.path
  {
    var k := RouteKey(m1).value;
    var v1, v2 := HttpMethod(m1).value, HttpMethod(m2).value;
    assert k == v1 + m1.path.value == v2 + m2.path.value;
    assert k[0] == v1[0] == v2[0];
    assert v1 == v2;
    assert m1.path.value == k[|v1|..] == m2.path.value;
  }

  /** One iteration of `initEndpointsForController`: a method without @Path
      is skipped; otherwise its key is computed (which fails for a method
      with neither verb marker) and added, unless the key already exists. */
  function RegisterOne(table: map<string, Endpoint>, inst: Instance, m: MethodDesc): (r: (map<string, Endpoint>, Outcome<StartupError>))
    ensures m.path.None? ==> r == (table, Pass)
    ensures r.1.Fail? ==> r.0 == table
    ensures m.path.Some? && r.1.Pass? ==>
      RouteKey(m).Ok? && RouteKey(m).value !in table &&
      r.0 == table[RouteKey(m).value := Endpoint(inst, m)] && |r.0| == |table| + 1
    ensures m.path.Some? && RouteKey(m).Ok? && RouteKey(m).value in table ==>
      r.1 == Fail(DuplicateEndpoint(RouteKey(m).value))
  {
    if m.path.None? then (table, Pass)
    else
      match RouteKey(m)
      case Err(e) => (table, Fail(e))
      case Ok(key) =>
        if key in table then (table, Fail(DuplicateEndpoint(key)))
        else (table[key := Endpoint(inst, m)], Pass)
  }

  /** The loop of `initEndpointsForController` over `ms`, in order, from the
      table `table`: the table after the loop and the outcome. */
  function Register(table: map<string, Endpoint>, inst: Instance, ms: seq<MethodDesc>): (r: (map<string, Endpoint>, Outcome<StartupError>))
    // an existing entry is kept, also when a duplicate is reported
    ensures forall k :: k in table ==> k in r.0 && r.0[k] == table[k]
    decreases |ms|
  {
    if ms == [] then (table, Pass)
    else
      var (t, o) := Register(table, inst, ms[..|ms| - 1]);
      if o.Fail? then (t, o) else RegisterOne(t, inst, ms[|ms| - 1])
  }

  /** The loop stops at the first failure: the methods after it are never
      looked at. */
  lemma {:induction false} RegisterStops(table: map<string, Endpoint>, inst: Instance, ms: seq<MethodDesc>, n: nat)
    requires n <= |ms| && Register(table, inst, ms[..n]).1.Fail?
    ensures Register(table, inst, ms) == Register(table, inst, ms[..n])
    decreases |ms| - n
  {
    if n < |ms| {
      assert ms[..|ms| - 1][..n] == ms[..n];
      RegisterStops(table, inst, ms[..|ms| - 1], n);
    } else {
      assert ms[..n] == ms;
    }
  }

  /** The route keys of the @Path methods of `ms` that have a verb. */
  function Keys(ms: seq<MethodDesc>): set<string>
  {
    if ms == [] then {} else Keys(ms[..|ms| - 1]) + KeyOf(ms[|ms| - 1])
  }

  /** The route key of one method, when it has @Path and a verb. */
  function KeyOf(m: MethodDesc): set<string>
  {
    if m.path.Some? && RouteKey(m).Ok? then {RouteKey(m).value} else {}
  }

  /** A successful registration step adds the method's key. */
  lemma RegisterOneKeys(table: map<string, Endpoint>, inst: Instance, m: MethodDesc)
    requires RegisterOne(table, inst, m).1.Pass?
    ensures RegisterOne(table, inst, m).0.Keys == table.Keys + KeyOf(m)
  {
  }

  /** `Keys(ms)` holds exactly the route keys of the @Path methods of `ms`. */
  lemma {:induction false} KeysOf(ms: seq<MethodDesc>)
    ensures forall k :: k in Keys(ms) <==>
      exists i :: 0 <= i < |ms| && ms[i].path.Some? && RouteKey(ms[i]).Ok? && RouteKey(ms[i]).value == k
    decreases |ms|
  {
    if ms != [] {
      var init := ms[..|ms| - 1];
      KeysOf(init);
      assert forall i :: 0 <= i < |init| ==> ms[i] == init[i];
      forall k | k in Keys(ms)
        ensures exists i :: 0 <= i < |ms| && ms[i].path.Some? && RouteKey(ms[i]).Ok? && RouteKey(ms[i]).value == k
      {
        if k in Keys(init) {
          var i :| 0 <= i < |init| && init[i].path.Some? && RouteKey(init[i]).Ok? && RouteKey(init[i]).value == k;
          assert ms[i] == init[i];
        } else {
          assert ms[|ms| - 1].path.Some? && RouteKey(ms[|ms| - 1]).Ok? && RouteKey(ms[|ms| - 1]).value == k;
        }
      }
    }
  }

  /** Every entry the loop adds is served by `inst` and one of the @Path
      methods of `ms`, under that method's route key. */
  lemma {:induction false} RegisterAdds(table: map<string, Endpoint>, inst: Instance, ms: seq<MethodDesc>)
    ensures forall k :: k in Register(table, inst, ms).0 && k !in table ==>
      var e := Register(table, inst, ms).0[k];
      e.controller == inst && e.handler in ms && e.handler.path.Some? &&
      RouteKey(e.handler) == Ok(k)
    decreases |ms|
  {
    if ms != [] {
      var init, last := ms[..|ms| - 1], ms[|ms| - 1];
      RegisterAdds(table, inst, init);
      var (t, o) := Register(table, inst, init);
      var r := Register(table, inst, ms).0;
      assert o.Pass? ==> r == RegisterOne(t, inst, last).0;
      assert o.Fail? ==> r == t;
      forall k | k in r && k !in table
        ensures r[k].controller == inst && r[k].handler in ms && r[k].handler.path.Some? && RouteKey(r[k].handler) == Ok(k)
      {
        if k in t {
          assert r[k] == t[k];
          assert t[k].handler in init;
        } else {
          assert r[k] == Endpoint(inst, last);
        }
      }
    }
  }

  /** A successful loop over `ms` is a successful loop over all but its
      last method followed by one more step. */
  lemma RegisterLast(table: map<string, Endpoint>, inst: Instance, ms: seq<MethodDesc>)
    requires ms != [] && Register(table, inst, ms).1.Pass?
    ensures Register(table, inst, ms[..|ms| - 1]).1.Pass?
    ensures Register(table, inst, ms) == RegisterOne(Register(table, inst, ms[..|ms| - 1]).0, inst, ms[|ms| - 1])
  {
  }

  /** After a successful loop the keys added are exactly those of the @Path
      methods of `ms` (methods without @Path are ignored). */
  lemma {:induction false} RegisterAddsKeys(table: map<string, Endpoint>, inst: Instance, ms: seq<MethodDesc>)
    requires Register(table, inst, ms).1.Pass?
    ensures Register(table, inst, ms).0.Keys == table.Keys + Keys(ms)
    decreases |ms|
  {
    if ms != [] {
      var init := ms[..|ms| - 1];
      RegisterLast(table, inst, ms);
      RegisterAddsKeys(table, inst, init);
      RegisterOneKeys(Register(table, inst, init).0, inst, ms[|ms| - 1]);
    }
  }

  /** After a successful loop, every @Path method of `ms` is in the table
      under its route key, served by `inst`. */
  lemma {:induction false} RegisterRegistersAll(table: map<string, Endpoint>, inst: Instance, ms: seq<MethodDesc>)
    requires Register(table, inst, ms).1.Pass?
    ensures forall i :: 0 <= i < |ms| && ms[i].path.Some? ==>
      RouteKey(ms[i]).Ok? && RouteKey(ms[i]).value in Register(table, inst, ms).0 &&
      Register(table, inst, ms).0[RouteKey(ms[i]).value] == Endpoint(inst, ms[i])
    decreases |ms|
  {
    if ms != [] {
      var init := ms[..|ms| - 1];
      var t := Register(table, inst, init).0;
      assert Register(table, inst, init).1.Pass?;
      RegisterRegistersAll(table, inst, init);
      var r := Register(table, inst, ms).0;
      assert forall k :: k in t ==> k in r && r[k] == t[k];
      forall i | 0 <= i < |init| && ms[i].path.Some?
        ensures RouteKey(ms[i]).Ok? && RouteKey(ms[i]).value in r && r[RouteKey(ms[i]).value] == Endpoint(inst, ms[i])
      {
        assert ms[i] == init[i];
      }
    }
  }

  /** The route keys of the @Path methods of `ms` all exist, are pairwise
      distinct and none of them is in `table`. */
  ghost predicate FreshKeys(table: map<string, Endpoint>, ms: seq<MethodDesc>)
  {
    forall i :: 0 <= i < |ms| && ms[i].path.Some? ==>
      && RouteKey(ms[i]).Ok?
      && RouteKey(ms[i]).value !in table
      && forall j :: i < j < |ms| && ms[j].path.Some? && RouteKey(ms[j]).Ok? ==>
           RouteKey(ms[i]).value != RouteKey(ms[j]).value
  }

  /** `FreshKeys` of a sequence, in terms of its last method. */
  lemma FreshKeysSnoc(table: map<string, Endpoint>, ms: seq<MethodDesc>)
    requires ms != []
    ensures FreshKeys(table, ms) <==>
      var init, last := ms[..|ms| - 1], ms[|ms| - 1];
      FreshKeys(table, init) &&
      (last.path.Some? ==> RouteKey(last).Ok? && RouteKey(last).value !in table && RouteKey(last).value !in Keys(init))
  {
    var init, last := ms[..|ms| - 1], ms[|ms| - 1];
    KeysOf(init);
    assert forall i :: 0 <= i < |init| ==> ms[i] == init[i];
  }

  /** Registration succeeds exactly when every @Path method has @GET or
      @POST and their route keys are pairwise distinct and new to the table. */
  lemma {:induction false} RegisterSucceedsIff(table: map<string, Endpoint>, inst: Instance, ms: seq<MethodDesc>)
    ensures Register(table, inst, ms).1.Pass? <==> FreshKeys(table, ms)
    decreases |ms|
  {
    if ms != [] {
      var init := ms[..|ms| - 1];
      RegisterSucceedsIff(table, inst, init);
      FreshKeysSnoc(table, ms);
      if Register(table, inst, init).1.Pass? {
        RegisterAddsKeys(table, inst, init);
      }
    }
  }

  /** The route keys of the @Path methods of every class of `cs`. */
  ghost function AllKeys(cs: set<ClassDesc>): set<string>
  {
    set c, k | c in cs && k in Keys(c.methods) :: k
  }

  /** The keys after registering one more class, in terms of all classes
      registered. */
  lemma AllKeysStep(start: set<string>, before: set<string>, after: set<string>, done: set<ClassDesc>, cl: ClassDesc)
    requires before == start + AllKeys(done) && after == before + Keys(cl.methods)
    ensures after == start + AllKeys(done + {cl})
  {
    assert AllKeys(done + {cl}) == AllKeys(done) + Keys(cl.methods);
  }

  lemma RoutableSubset(table: map<string, Endpoint>, small: set<ClassDesc>, big: set<ClassDesc>)
    requires small <= big && Routable(table, big)
    ensures Routable(table, small)
  {
  }

  /** The controller classes `cs` can all be registered into `table`: each
      one's @Path methods have fresh, pairwise distinct keys, and no two
      classes share a key. The condition speaks of the set only, so it does
      not depend on the order in which the classes are visited. */
  ghost predicate Routable(table: map<string, Endpoint>, cs: set<ClassDesc>)
  {
    && (forall c :: c in cs ==> FreshKeys(table, c.methods))
    && (forall c1, c2 :: c1 in cs && c2 in cs && c1 != c2 ==> Keys(c1.methods) !! Keys(c2.methods))
  }

  /** Registering one more class into the table that the classes `done`
      built from `table` succeeds exactly when the larger set is routable. */
  lemma RoutableAdd(table: map<string, Endpoint>, before: map<string, Endpoint>, done: set<ClassDesc>, cl: ClassDesc)
    requires cl !in done && Routable(table, done)
    requires before.Keys == table.Keys + AllKeys(done)
    ensures Routable(table, done + {cl}) <==> FreshKeys(before, cl.methods)
  {
    var ms := cl.methods;
    KeysOf(ms);
    if FreshKeys(before, ms) {
      forall c2 | c2 in done ensures Keys(ms) !! Keys(c2.methods) {
        forall k | k in Keys(ms) ensures k !in Keys(c2.methods) {
          var i :| 0 <= i < |ms| && ms[i].path.Some? && RouteKey(ms[i]).Ok? && RouteKey(ms[i]).value == k;
          assert k !in before;
        }
      }
    }
    if Routable(table, done + {cl}) {
      forall i | 0 <= i < |ms| && ms[i].path.Some? ensures RouteKey(ms[i]).Ok? && RouteKey(ms[i]).value !in before {
        var k := RouteKey(ms[i]).value;
        assert k in Keys(ms);
      }
    }
  }

  /** `later` keeps every entry of `earlier`. */
  predicate Kept(earlier: map<string, Endpoint>, later: map<string, Endpoint>)
  {
    forall k :: k in earlier ==> k in later && later[k] == earlier[k]
  }

  /** Every entry of `table` that `start` lacks is a method of its
      controller's class, served by the instance `made` holds for that class. */
  predicate AddedBy(start: map<string, Endpoint>, table: map<string, Endpoint>, made: map<ClassDesc, Instance>)
  {
    forall k :: k in table && k !in start ==>
      table[k].controller.cls in made && table[k].controller == made[table[k].controller.cls] &&
      table[k].handler in table[k].controller.cls.methods
  }

  /** Every @Path method of every class in `made` is routed to that class's
      instance under its key. */
  predicate RoutesAll(table: map<string, Endpoint>, made: map<ClassDesc, Instance>)
  {
    forall c, m :: c in made && m in c.methods && m.path.Some? ==>
      RouteKey(m).Ok? && RouteKey(m).value in table && table[RouteKey(m).value] == Endpoint(made[c], m)
  }

  /** The three facts above, after registering one more class `cl` through
      the instance `inst`. */
  lemma RegisteredStep(start: map<string, Endpoint>, before: map<string, Endpoint>, after: map<string, Endpoint>,
                       made: map<ClassDesc, Instance>, cl: ClassDesc, inst: Instance)
    requires cl !in made && inst.cls == cl
    requires Kept(start, before) && AddedBy(start, before, made)
    requires Kept(before, after)
    requires forall k :: k in after && k !in before ==> after[k].controller == inst && after[k].handler in cl.methods
    ensures Kept(start, after) && AddedBy(start, after, made[cl := inst])
  {
  }

  lemma RoutesAllStep(before: map<string, Endpoint>, after: map<string, Endpoint>,
                      made: map<ClassDesc, Instance>, cl: ClassDesc, inst: Instance)
    requires RoutesAll(before, made) && Kept(before, after)
    requires forall m :: m in cl.methods && m.path.Some? ==>
      RouteKey(m).Ok? && RouteKey(m).value in after && after[RouteKey(m).value] == Endpoint(inst, m)
    ensures RoutesAll(after, made[cl := inst])
  {
  }

  /** The state of `initControllersEndpoints` after the classes of `made`
      were registered from `start` without failure, `rest` still to go. */
  ghost predicate RegisteredSoFar(start: map<string, Endpoint>, table: map<string, Endpoint>,
                                  made: map<ClassDesc, Instance>, classes: set<ClassDesc>, rest: set<ClassDesc>)
  {
    && rest <= classes && made.Keys == classes - rest
    && Kept(start, table) && AddedBy(start, table, made) && RoutesAll(table, made)
    && Routable(start, made.Keys) && table.Keys == start.Keys + AllKeys(made.Keys)
  }

  /** A class registered without failure through `inst` keeps that state. */
  lemma RegisteredPass(start: map<string, Endpoint>, before: map<string, Endpoint>, after: map<string, Endpoint>,
                       made: map<ClassDesc, Instance>, classes: set<ClassDesc>, rest: set<ClassDesc>,
                       cl: ClassDesc, inst: Instance)
    requires RegisteredSoFar(start, before, made, classes, rest) && cl in rest && inst.cls == cl
    requires Kept(before, after)
    requires forall k :: k in after && k !in before ==> after[k].controller == inst && after[k].handler in cl.methods
    requires FreshKeys(before, cl.methods) && after.Keys == before.Keys + Keys(cl.methods)
    requires forall m :: m in cl.methods && m.path.Some? ==>
      RouteKey(m).Ok? && RouteKey(m).value in after && after[RouteKey(m).value] == Endpoint(inst, m)
    ensures RegisteredSoFar(start, after, made[cl := inst], classes, rest - {cl})
  {
    var done := made.Keys;
    RoutableAdd(start, before, done, cl);
    RegisteredStep(start, before, after, made, cl, inst);
    RoutesAllStep(before, after, made, cl, inst);
    AllKeysStep(start.Keys, before.Keys, after.Keys, done, cl);
    assert made[cl := inst].Keys == done + {cl};
  }

  /** A class whose registration fails shows that the classes are not
      routable; the entries added so far stay. */
  lemma RegisteredFail(start: map<string, Endpoint>, before: map<string, Endpoint>, after: map<string, Endpoint>,
                       made: map<ClassDesc, Instance>, classes: set<ClassDesc>, rest: set<ClassDesc>,
                       cl: ClassDesc, inst: Instance)
    requires RegisteredSoFar(start, before, made, classes, rest) && cl in rest && inst.cls == cl
    requires Kept(before, after)
    requires forall k :: k in after && k !in before ==> after[k].controller == inst && after[k].handler in cl.methods
    requires !FreshKeys(before, cl.methods)
    ensures !Routable(start, classes)
    ensures made[cl := inst].Keys <= classes
    ensures Kept(start, after) && AddedBy(start, after, made[cl := inst])
  {
    var done := made.Keys;
    RoutableAdd(start, before, done, cl);
    RegisteredStep(start, before, after, made, cl, inst);
    if Routable(start, classes) {
      RoutableSubset(start, done + {cl}, classes);
    }
  }

  /** `Endpoint.invoke`: with no argument the method is invoked without
      arguments, otherwise with the given ones; either way a method whose
      parameter count differs from the argument count is refused by
      `Method.invoke` with IllegalArgumentException. The method body itself
      is the collaborator `call` (`None` when it throws). */
  function Invoke(e: Endpoint, args: seq<Request>, call: (Endpoint, seq<Request>) -> Option<Returned>): (r: Result<Returned, InvokeError>)
    ensures r.Ok? ==> |args| == e.handler.arity && call(e, args) == Some(r.value)
    ensures r.Err? <==> |args| != e.handler.arity || call(e, args).None?
  {
    if |args| != e.handler.arity then Err(WrongArity(e.handler.name))
    else match call(e, args)
      case None => Err(EndpointThrew(e.handler.name))
      case Some(v) => Ok(v)
  }

  class EndpointsController {
    var endpoints: map<string, Endpoint>

    constructor ()
      ensures endpoints == map[]
    {
      endpoints := map[];
    }

    /** `invokeEndpoint`: `null` for a key that is not registered, otherwise
        the result of invoking the endpoint; it never changes the table. */
    function InvokeEndpoint(key: string, args: seq<Request>, call: (Endpoint, seq<Request>) -> Option<Returned>): (r: Result<Returned, InvokeError>)
      reads this
      ensures key !in endpoints ==> r == Ok(Null)
      ensures key in endpoints ==> r == Invoke(endpoints[key], args, call)
    {
      if key in endpoints then Invoke(endpoints[key], args, call) else Ok(Null)
    }

    /** `initEndpointsForController`: registers the @Path methods of one
        controller, all served by the same instance. */
    method InitEndpointsForController(inst: Instance, methods: seq<MethodDesc>) returns (r: Outcome<StartupError>)
      modifies this
      ensures (endpoints, r) == Register(old(endpoints), inst, methods)
    {
      var i := 0;
      r := Pass;
      while i < |methods|
        invariant 0 <= i <= |methods|
        invariant (endpoints, r) == Register(old(endpoints), inst, methods[..i])
        invariant r.Pass?
      {
        assert methods[..i + 1][..i] == methods[..i];
        var m := methods[i];
        if m.path.Some? {
          var verb := HttpMethod(m);
          if verb.Err? {
            r := Fail(verb.error);
            RegisterStops(old(endpoints), inst, methods, i + 1);
            return;
          }
          var route := verb.value + m.path.value;
          if route in endpoints {
            r := Fail(DuplicateEndpoint(route));
            RegisterStops(old(endpoints), inst, methods, i + 1);
            return;
          }
          endpoints := endpoints[route := Endpoint(inst, m)];
        }
        i := i + 1;
      }
      assert methods[..i] == methods;
    }

    /** The body of the loop in `initControllersEndpoints`: a NEW instance of
        the controller class, whose @Path methods are then registered. */
    method RegisterController(cl: ClassDesc) returns (r: Outcome<StartupError>, inst: Instance)
      modifies this
      ensures fresh(inst) && inst.cls == cl && inst.slots == map[]
      ensures r.Pass? <==> FreshKeys(old(endpoints), cl.methods)
      ensures r.Pass? ==> endpoints.Keys == old(endpoints).Keys + Keys(cl.methods)
      ensures Kept(old(endpoints), endpoints)
      ensures forall k :: k in endpoints && k !in old(endpoints) ==>
        endpoints[k].controller == inst && endpoints[k].handler in cl.methods
      ensures r.Pass? ==> forall m :: m in cl.methods && m.path.Some? ==>
        RouteKey(m).Ok? && RouteKey(m).value in endpoints && endpoints[RouteKey(m).value] == Endpoint(inst, m)
    {
      inst := new Instance(cl);
      r := InitEndpointsForController(inst, cl.methods);
      RegisterAdds(old(endpoints), inst, cl.methods);
      RegisterSucceedsIff(old(endpoints), inst, cl.methods);
      if r.Pass? {
        RegisterAddsKeys(old(endpoints), inst, cl.methods);
        RegisterRegistersAll(old(endpoints), inst, cl.methods);
        forall m | m in cl.methods && m.path.Some?
          ensures RouteKey(m).Ok? && RouteKey(m).value in endpoints && endpoints[RouteKey(m).value] == Endpoint(inst, m)
        {
          var i :| 0 <= i < |cl.methods| && cl.methods[i] == m;
        }
      }
    }

    /** `initControllersEndpoints`: for each controller class (in unspecified
        set order) a NEW instance is constructed and its endpoints are
        registered. This instance is not the one whose fields the engine
        injected: its reference fields are all unassigned. Registration
        succeeds exactly when the classes are routable, whatever the order,
        and then the table gains exactly their route keys. */
    method InitControllersEndpoints(classes: set<ClassDesc>) returns (r: Outcome<StartupError>, ghost made: map<ClassDesc, Instance>)
      modifies this
      ensures made.Keys <= classes && (r.Pass? ==> made.Keys == classes)
      ensures forall c :: c in made ==> fresh(made[c]) && made[c].cls == c && made[c].slots == map[]
      ensures Kept(old(endpoints), endpoints)
      ensures AddedBy(old(endpoints), endpoints, made)
      ensures r.Pass? <==> Routable(old(endpoints), classes)
      ensures r.Pass? ==> endpoints.Keys == old(endpoints).Keys + AllKeys(classes)
      ensures r.Pass? ==> RoutesAll(endpoints, made)
    {
      ghost var start := endpoints;
      var rest := classes;
      made := map[];
      r := Pass;
      assert AllKeys({}) == {};
      while rest != {}
        invariant r.Pass? && RegisteredSoFar(start, endpoints, made, classes, rest)
        invariant forall c :: c in made ==> fresh(made[c]) && made[c].cls == c && made[c].slots == map[]
        decreases rest
      {
        var cl :| cl in rest;
        ghost var before := endpoints;
        var inst;
        r, inst := RegisterController(cl);
        if r.Fail? {
          RegisteredFail(start, before, endpoints, made, classes, rest, cl, inst);
          made := made[cl := inst];
          return;
        }
        RegisteredPass(start, before, endpoints, made, classes, rest, cl, inst);
        made := made[cl := inst];
        rest := rest - {cl};
      }
    }
  }
}
