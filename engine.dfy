/** DIEngine: classifies the discovered classes, hands the qualifier classes
    to the DependencyContainer, wires the @Autowired fields of a fresh
    instance of every controller, and hands the controller classes to the
    EndpointsController. */
module Engine {
  import opened Wrappers
  import opened JavaStrings
  import opened Descriptors
  import opened Container
  import opened Endpoints

  // ---------------------------------------------------------------------
  // getClassPath

  /** `getClassPath`: the absolute path of a source file with every
      occurrence of the root removed, every backslash turned into `.`, and
      every occurrence of ".java" removed. */
  function ClassPath(root: string, absolutePath: string): (r: string)
    requires |root| > 0
    ensures '\\' !in r
    ensures |r| <= |absolutePath|
  {
    var relative := ReplaceAll(absolutePath, root, "");
    var dotted := ReplaceAll(relative, "\\", ".");
    RemoveAllShrinks(absolutePath, root);
    ReplaceCharPointwise(relative, '\\', '.');
    RemoveAllShrinks(dotted, ".java");
    ReplaceAll(dotted, ".java", "")
  }

  /** `rel` with each backslash turned into a dot. */
  function Dotted(rel: string): (r: string)
    ensures |r| == |rel|
    ensures forall k :: 0 <= k < |rel| ==> r[k] == if rel[k] == '\\' then '.' else rel[k]
  {
    ReplaceCharPointwise(rel, '\\', '.');
    ReplaceAll(rel, "\\", ".")
  }

  /** After the backslashes of `rel` became dots, ".java" occurs in
      `rel + ".java"` only as the file extension. */
  predicate OnlyExtension(rel: string)
  {
    forall j :: 0 <= j < |rel| ==> !OccursAt(Dotted(rel) + ".java", ".java", j)
  }

  /** For a source file `root + rel + ".java"`, where the root does not
      occur again after the front and ".java" occurs only as the extension,
      the class name is `rel` with each backslash turned into a dot and
      every other character, `/` included, kept as it is. */
  lemma ClassPathOfSource(root: string, rel: string)
    requires |root| > 0 && forall j :: 0 <= j < |rel| + 5 ==> !OccursAt(rel + ".java", root, j)
    requires OnlyExtension(rel)
    ensures ClassPath(root, root + rel + ".java") == Dotted(rel)
  {
    var file := rel + ".java";
    assert root + rel + ".java" == root + file;
    StripRoot(root, file);
    DotSuffix(rel);
    RemoveSuffix(Dotted(rel));
  }

  /** On a file system with `/` separators and a package path without
      dots, the class name is the relative path unchanged, slashes
      included. */
  lemma ClassPathWithSlashes(root: string, rel: string)
    requires |root| > 0 && forall j :: 0 <= j < |rel| + 5 ==> !OccursAt(rel + ".java", root, j)
    requires '.' !in rel && '\\' !in rel
    ensures ClassPath(root, root + rel + ".java") == rel
  {
    var conv := Dotted(rel);
    assert conv == rel;
    forall j | 0 <= j < |rel| ensures !OccursAt(conv + ".java", ".java", j) {
      assert (conv + ".java")[j] == rel[j];
      assert (conv + ".java")[j..j + 5][0] == (conv + ".java")[j];
    }
    ClassPathOfSource(root, rel);
  }

  /** Every ".java" in the dotted path is removed, not only the extension:
      with backslash separators, a package directory whose name starts with
      "java" loses that prefix together with the dot before it, so
      `p\javax\Q.java` becomes `p` followed by `x.Q`. */
  lemma JavaSegmentRemoved(root: string, p: string, q: string)
    requires |root| > 0
    requires forall j :: 0 <= j < |p + "\\java" + q| + 5 ==> !OccursAt(p + "\\java" + q + ".java", root, j)
    requires OnlyExtension(p) && OnlyExtension(q)
    ensures ClassPath(root, root + p + "\\java" + q + ".java") == Dotted(p) + Dotted(q)
  {
    var rel := p + "\\java" + q;
    var file := rel + ".java";
    var pp, qq := Dotted(p), Dotted(q);
    assert root + p + "\\java" + q + ".java" == root + file;
    assert ReplaceAll(root + file, root, "") == file by {
      StripRoot(root, file);
    }
    assert ReplaceAll(file, "\\", ".") == pp + ".java" + qq + ".java" by {
      DotSuffix(rel);
      DottedJava(p, q);
    }
    assert ReplaceAll(pp + ".java" + qq + ".java", ".java", "") == pp + qq by {
      RemoveInnerAndSuffix(pp, qq);
    }
  }

  /** The backslash before "java" becomes the dot of ".java". */
  lemma DottedJava(p: string, q: string)
    ensures Dotted(p + "\\java" + q) == Dotted(p) + ".java" + Dotted(q)
  {
    var rel := p + "\\java" + q;
    var d, pp, qq := Dotted(rel), Dotted(p), Dotted(q);
    forall k | 0 <= k < |rel| ensures d[k] == (pp + ".java" + qq)[k] {
      if k < |p| {
        assert rel[k] == p[k];
      } else if k < |p| + 5 {
        assert rel[k] == "\\java"[k - |p|];
      } else {
        assert rel[k] == q[k - |p| - 5];
      }
    }
  }

  /** Both occurrences of ".java" in `pp + ".java" + qq + ".java"` are
      removed when neither part holds one of its own. */
  lemma RemoveInnerAndSuffix(pp: string, qq: string)
    requires forall j :: 0 <= j < |pp| ==> !OccursAt(pp + ".java", ".java", j)
    requires forall j :: 0 <= j < |qq| ==> !OccursAt(qq + ".java", ".java", j)
    ensures ReplaceAll(pp + ".java" + qq + ".java", ".java", "") == pp + qq
  {
    var tail := ".java" + qq + ".java";
    assert pp + ".java" + qq + ".java" == pp + tail;
    assert ReplaceAll(pp + tail, ".java", "") == pp + ReplaceAll(tail, ".java", "") by {
      forall j | 0 <= j < |pp| ensures !OccursAt(pp + tail, ".java", j) {
        OccursPrefix(pp + ".java", qq + ".java", ".java", j);
        assert pp + ".java" + (qq + ".java") == pp + tail;
      }
      ReplaceSkips(pp, tail, ".java", "");
    }
    assert ReplaceAll(tail, ".java", "") == qq by {
      assert tail == ".java" + (qq + ".java");
      ReplaceLeading(".java", qq + ".java", "");
      RemoveSuffix(qq);
      assert "" + qq == qq;
    }
  }

  /** The root at the front is removed and nothing else is. */
  lemma StripRoot(root: string, file: string)
    requires |root| > 0 && forall j :: 0 <= j < |file| ==> !OccursAt(file, root, j)
    ensures ReplaceAll(root + file, root, "") == file
  {
    ReplaceLeading(root, file, "");
    ReplaceAbsent(file, root, "");
  }

  /** Backslashes are converted in `rel` and the suffix is left alone. */
  lemma DotSuffix(rel: string)
    ensures ReplaceAll(rel + ".java", "\\", ".") == Dotted(rel) + ".java"
  {
    ReplaceCharPointwise(rel + ".java", '\\', '.');
  }

  /** Text in which ".java" starts only at its end loses exactly that suffix. */
  lemma RemoveSuffix(conv: string)
    requires forall j :: 0 <= j < |conv| ==> !OccursAt(conv + ".java", ".java", j)
    ensures ReplaceAll(conv + ".java", ".java", "") == conv
  {
    ReplaceSkips(conv, ".java", ".java", "");
    ReplaceLeading(".java", "", "");
    assert ".java" + "" == ".java";
    assert conv + "" == conv;
  }

  // ---------------------------------------------------------------------
  // processClass and the two buckets

  /** The class carries one of the markers that `getBeanInstance` accepts. */
  predicate HasRole(c: ClassDesc)
  {
    c.bean.Some? || c.service || c.component
  }

  /** How `getBeanInstance` obtains a value: through `getBeanInstanceWithScope`
      with a scope, or by constructing a fresh instance directly. */
  datatype Recipe = WithScope(cls: ClassDesc, scope: Scope) | NewInstance(cls: ClassDesc)

  /** The decision made by `getBeanInstance(field, t)` before anything is
      constructed: an interface type must be qualified on the field and is
      replaced by the class bound to the qualifier, and a concrete class is
      resolved by @Bean (its scope), then @Service (singleton), then
      @Component (fresh), and fails otherwise. An unbound qualifier makes the
      recursion run on `null` (NullPointerException); a qualifier bound to an
      interface makes it look up the same qualifier forever
      (StackOverflowError). */
  function BeanRecipe(field: FieldDesc, t: ClassDesc, table: map<string, ClassDesc>): (r: Result<Recipe, StartupError>)
    ensures r.Ok? ==> !r.value.cls.isInterface && HasRole(r.value.cls)
    ensures r.Ok? && !t.isInterface ==> r.value.cls == t
    ensures r.Ok? && t.isInterface ==>
      field.qualifier.Some? && field.qualifier.value in table && r.value.cls == table[field.qualifier.value]
    ensures r.Ok? ==> match r.value
      case WithScope(c, s) => (c.bean.Some? && s == c.bean.value) || (c.bean.None? && c.service && s == Singleton)
      case NewInstance(c) => c.bean.None? && !c.service && c.component
    ensures !t.isInterface ==> (r.Err? <==> !HasRole(t)) && (r.Err? ==> r.error == NoRole(field.name))
    ensures t.isInterface && field.qualifier.None? ==> r == Err(InterfaceWithoutQualifier(field.name, t.name))
    ensures t.isInterface && field.qualifier.Some? && field.qualifier.value !in table ==>
      r == Err(UnboundQualifier(field.name, field.qualifier.value))
    ensures t.isInterface && field.qualifier.Some? && field.qualifier.value in table ==>
      var bound := table[field.qualifier.value];
      if bound.isInterface then r == Err(QualifierLoop(field.name, field.qualifier.value))
      else r == BeanRecipe(field, bound, table)
    decreases if t.isInterface then 1 else 0
  {
    if t.isInterface then
      if field.qualifier.None? then Err(InterfaceWithoutQualifier(field.name, t.name))
      else
        var q := field.qualifier.value;
        if q !in table then Err(UnboundQualifier(field.name, q))
        else if table[q].isInterface then Err(QualifierLoop(field.name, q))
        else BeanRecipe(field, table[q], table)
    else if t.bean.Some? then Ok(WithScope(t, t.bean.value))
    else if t.service then Ok(WithScope(t, Singleton))
    else if t.component then Ok(NewInstance(t))
    else Err(NoRole(field.name))
  }

  /** The recipe decides whether the value is shared through the cache. */
  predicate Shared(r: Recipe)
  {
    r.WithScope? && r.scope == Singleton
  }

  /** Precedence: @Bean decides over @Service, which decides over
      @Component; @Service is always shared and @Component never. */
  lemma RecipePrecedence(field: FieldDesc, t: ClassDesc, table: map<string, ClassDesc>)
    requires !t.isInterface
    ensures t.bean.Some? ==> BeanRecipe(field, t, table) == Ok(WithScope(t, t.bean.value))
    ensures t.bean.None? && t.service ==> BeanRecipe(field, t, table) == Ok(WithScope(t, Singleton))
    ensures t.bean.None? && !t.service && t.component ==> BeanRecipe(field, t, table) == Ok(NewInstance(t))
  {
  }

  /** A field typed by an interface and qualified by a value that the
      container bound to a concrete class with a role resolves to that class,
      whatever class was bound first to other values. */
  lemma {:induction false} QualifiedInterfaceResolves(table: map<string, ClassDesc>, qs: seq<ClassDesc>, field: FieldDesc, iface: ClassDesc, c: ClassDesc)
    requires AllQualified(qs) && Bind(table, qs).1.Pass?
    requires c in qs && !c.isInterface && HasRole(c)
    requires iface.isInterface && field.qualifier == c.qualifier
    ensures BeanRecipe(field, iface, Bind(table, qs).0).Ok?
    ensures BeanRecipe(field, iface, Bind(table, qs).0).value.cls == c
  {
    BindBindsDeclarers(table, qs);
    var i :| 0 <= i < |qs| && qs[i] == c;
  }

  /** An @Autowired field is wired in `slots` when it resolves and its slot
      holds an instance of the class it resolves to. */
  predicate WiredIn(slots: map<string, Instance>, f: FieldDesc, table: map<string, ClassDesc>)
  {
    f.autowired.Some? ==>
      && BeanRecipe(f, f.fieldType, table).Ok?
      && f.name in slots
      && slots[f.name].cls == BeanRecipe(f, f.fieldType, table).value.cls
  }

  /** The class whose singleton an @Autowired field is given from the
      cache, when its resolution is shared. */
  function SharedClass(f: FieldDesc, table: map<string, ClassDesc>): Option<ClassDesc>
  {
    if f.autowired.Some? && BeanRecipe(f, f.fieldType, table).Ok? && Shared(BeanRecipe(f, f.fieldType, table).value)
    then Some(BeanRecipe(f, f.fieldType, table).value.cls)
    else None
  }

  /** The singleton classes that wiring the fields `fs` puts into the cache. */
  function SharedClasses(fs: seq<FieldDesc>, table: map<string, ClassDesc>): set<ClassDesc>
  {
    set i | 0 <= i < |fs| && SharedClass(fs[i], table).Some? :: SharedClass(fs[i], table).value
  }

  /** The same over the fields of every class of `cs`. */
  ghost function ControllerSingletons(cs: set<ClassDesc>, table: map<string, ClassDesc>): set<ClassDesc>
  {
    set c, x | c in cs && x in SharedClasses(c.fields, table) :: x
  }

  /** A field whose value is shared holds the instance the cache keeps for
      its class. */
  predicate FromCache(slots: map<string, Instance>, beans: map<ClassDesc, Instance>, f: FieldDesc, table: map<string, ClassDesc>)
  {
    SharedClass(f, table).Some? ==>
      && SharedClass(f, table).value in beans
      && f.name in slots
      && slots[f.name] == beans[SharedClass(f, table).value]
  }

  /** Every @Autowired field of every class of `cs` resolves. */
  ghost predicate Resolvable(cs: set<ClassDesc>, table: map<string, ClassDesc>)
  {
    forall c, i :: c in cs && 0 <= i < |c.fields| && c.fields[i].autowired.Some? ==>
      BeanRecipe(c.fields[i], c.fields[i].fieldType, table).Ok?
  }

  /** The names of the @Autowired fields among `fs`. */
  function AutowiredNames(fs: seq<FieldDesc>): (names: set<string>)
    ensures forall i :: 0 <= i < |fs| && fs[i].autowired.Some? ==> fs[i].name in names
    ensures forall n :: n in names ==> exists i :: 0 <= i < |fs| && fs[i].autowired.Some? && fs[i].name == n
  {
    if fs == [] then {}
    else
      var last := fs[|fs| - 1];
      AutowiredNames(fs[..|fs| - 1]) + (if last.autowired.Some? then {last.name} else {})
  }

  /** A prefix of the fields has no more @Autowired names than the whole. */
  lemma AutowiredPrefix(fs: seq<FieldDesc>, i: nat)
    requires i <= |fs|
    ensures AutowiredNames(fs[..i]) <= AutowiredNames(fs)
  {
    forall n | n in AutowiredNames(fs[..i]) ensures n in AutowiredNames(fs) {
      var j :| 0 <= j < i && fs[..i][j].autowired.Some? && fs[..i][j].name == n;
      assert fs[..i][j] == fs[j];
    }
  }

  /** `later` keeps every entry of `earlier`: the singleton cache only grows. */
  predicate Extends(earlier: map<ClassDesc, Instance>, later: map<ClassDesc, Instance>)
  {
    forall k :: k in earlier ==> k in later && later[k] == earlier[k]
  }

  /** The classes of `classes` that `processClass` puts in each bucket. */
  function ControllerClasses(classes: seq<ClassDesc>): set<ClassDesc>
  {
    set c | c in classes && c.controller
  }

  function QualifierClasses(classes: seq<ClassDesc>): set<ClassDesc>
  {
    set c | c in classes && !c.controller && c.qualifier.Some?
  }

  /** No class is both a controller and a qualifier class. */
  lemma BucketsDisjoint(classes: seq<ClassDesc>)
    ensures ControllerClasses(classes) !! QualifierClasses(classes)
  {
  }

  /** The fields before index `i` are wired, singletons from `beans`. */
  ghost predicate WiredPrefix(slots: map<string, Instance>, beans: map<ClassDesc, Instance>,
                              fs: seq<FieldDesc>, i: nat, table: map<string, ClassDesc>)
    requires i <= |fs|
  {
    forall j :: 0 <= j < i ==> WiredIn(slots, fs[j], table) && FromCache(slots, beans, fs[j], table)
  }

  /** Assigning the slot of field `i` keeps the fields before it wired, also
      while the cache grows, and then field `i` is wired as well. */
  lemma KeepWired(before: map<string, Instance>, after: map<string, Instance>,
                  cache: map<ClassDesc, Instance>, beans: map<ClassDesc, Instance>,
                  fs: seq<FieldDesc>, i: nat, table: map<string, ClassDesc>)
    requires i < |fs| && DistinctFieldNames(fs) && Extends(cache, beans)
    requires forall k :: k in before && k != fs[i].name ==> k in after && after[k] == before[k]
    requires WiredPrefix(before, cache, fs, i, table)
    requires WiredIn(after, fs[i], table) && FromCache(after, beans, fs[i], table)
    ensures WiredPrefix(after, beans, fs, i + 1, table)
  {
    forall j | 0 <= j < i
      ensures WiredIn(after, fs[j], table) && FromCache(after, beans, fs[j], table)
    {
      assert WiredIn(before, fs[j], table) && FromCache(before, cache, fs[j], table);
      assert fs[j].name != fs[i].name;
    }
  }

  /** The singletons of one more class are those of its fields. */
  lemma ControllerSingletonsAdd(cs: set<ClassDesc>, c: ClassDesc, table: map<string, ClassDesc>)
    ensures ControllerSingletons(cs + {c}, table) == ControllerSingletons(cs, table) + SharedClasses(c.fields, table)
  {
  }

  /** The cache after wiring one more class, in terms of all classes wired. */
  lemma CacheStep(start: set<ClassDesc>, cache: set<ClassDesc>, beans: set<ClassDesc>,
                  done: set<ClassDesc>, cl: ClassDesc, table: map<string, ClassDesc>)
    requires cache == start + ControllerSingletons(done, table)
    requires beans == cache + SharedClasses(cl.fields, table)
    ensures beans == start + ControllerSingletons(done + {cl}, table)
  {
    ControllerSingletonsAdd(done, cl, table);
  }

  lemma ControllerSingletonsMono(small: set<ClassDesc>, big: set<ClassDesc>, table: map<string, ClassDesc>)
    requires small <= big
    ensures ControllerSingletons(small, table) <= ControllerSingletons(big, table)
  {
  }

  /** Every field of every instance in `wired` is wired, singletons from
      `beans`. */
  ghost predicate AllWired(wired: map<ClassDesc, Instance>, beans: map<ClassDesc, Instance>, table: map<string, ClassDesc>)
    reads wired.Values
  {
    forall c :: c in wired ==> WiredPrefix(wired[c].slots, beans, c.fields, |c.fields|, table)
  }

  /** Wiring one more instance keeps the others wired as the cache grows. */
  lemma AllWiredAdd(wired: map<ClassDesc, Instance>, cache: map<ClassDesc, Instance>, beans: map<ClassDesc, Instance>,
                    cl: ClassDesc, inst: Instance, table: map<string, ClassDesc>)
    requires AllWired(wired, cache, table) && Extends(cache, beans)
    requires WiredPrefix(inst.slots, beans, cl.fields, |cl.fields|, table)
    ensures AllWired(wired[cl := inst], beans, table)
  {
    forall c, i | c in wired && c != cl && 0 <= i < |c.fields|
      ensures FromCache(wired[c].slots, beans, c.fields[i], table)
    {
      assert FromCache(wired[c].slots, cache, c.fields[i], table);
    }
  }

  /** A class whose fields were all wired has resolvable fields. */
  lemma ResolvableAdd(cs: set<ClassDesc>, cl: ClassDesc, slots: map<string, Instance>, beans: map<ClassDesc, Instance>,
                      table: map<string, ClassDesc>)
    requires Resolvable(cs, table)
    requires WiredPrefix(slots, beans, cl.fields, |cl.fields|, table)
    ensures Resolvable(cs + {cl}, table)
  {
  }

  /** Resolvability passes to subsets and unions. */
  lemma ResolvableSubset(small: set<ClassDesc>, big: set<ClassDesc>, table: map<string, ClassDesc>)
    requires small <= big && Resolvable(big, table)
    ensures Resolvable(small, table)
  {
  }

  lemma ResolvableUnion(a: set<ClassDesc>, b: set<ClassDesc>, table: map<string, ClassDesc>)
    requires Resolvable(a, table) && Resolvable(b, table)
    ensures Resolvable(a + b, table)
  {
  }

  /** The state of `initControllersFields` after wiring the classes of
      `cs` not in `rest`, starting from the cache `start`. */
  ghost predicate WiredSoFar(start: map<ClassDesc, Instance>, beans: map<ClassDesc, Instance>, wired: map<ClassDesc, Instance>,
                             cs: set<ClassDesc>, rest: set<ClassDesc>, table: map<string, ClassDesc>)
    reads wired.Values
  {
    && rest <= cs && wired.Keys == cs - rest
    && Extends(start, beans)
    && AllWired(wired, beans, table)
    && Resolvable(wired.Keys, table)
    && beans.Keys == start.Keys + ControllerSingletons(wired.Keys, table)
  }

  /** Wiring one more class successfully keeps `WiredSoFar`. */
  lemma WiredPass(start: map<ClassDesc, Instance>, cache: map<ClassDesc, Instance>, beans: map<ClassDesc, Instance>,
                  wired: map<ClassDesc, Instance>, cs: set<ClassDesc>, rest: set<ClassDesc>,
                  cl: ClassDesc, inst: Instance, table: map<string, ClassDesc>)
    requires WiredSoFar(start, cache, wired, cs, rest, table) && cl in rest
    requires Extends(cache, beans) && beans.Keys == cache.Keys + SharedClasses(cl.fields, table)
    requires WiredPrefix(inst.slots, beans, cl.fields, |cl.fields|, table) && Resolvable({cl}, table)
    ensures WiredSoFar(start, beans, wired[cl := inst], cs, rest - {cl}, table)
  {
    CacheStep(start.Keys, cache.Keys, beans.Keys, wired.Keys, cl, table);
    AllWiredAdd(wired, cache, beans, cl, inst, table);
    ResolvableUnion(wired.Keys, {cl}, table);
    assert wired[cl := inst].Keys == wired.Keys + {cl};
  }

  /** Wiring one more class unsuccessfully: the whole set is not resolvable
      and the cache stays within the singletons of the whole set. */
  lemma WiredFail(start: map<ClassDesc, Instance>, cache: map<ClassDesc, Instance>, beans: map<ClassDesc, Instance>,
                  wired: map<ClassDesc, Instance>, cs: set<ClassDesc>, rest: set<ClassDesc>,
                  cl: ClassDesc, table: map<string, ClassDesc>)
    requires WiredSoFar(start, cache, wired, cs, rest, table) && cl in rest
    requires Extends(cache, beans) && beans.Keys <= cache.Keys + SharedClasses(cl.fields, table)
    requires !Resolvable({cl}, table)
    ensures Extends(start, beans) && !Resolvable(cs, table)
    ensures beans.Keys <= start.Keys + ControllerSingletons(cs, table)
  {
    if Resolvable(cs, table) {
      ResolvableSubset({cl}, cs, table);
    }
    ControllerSingletonsAdd(wired.Keys, cl, table);
    ControllerSingletonsMono(wired.Keys + {cl}, cs, table);
  }

  /** When every field of `fs` was wired, the cache gained exactly their
      singletons. */
  lemma CacheGains(cache: map<ClassDesc, Instance>, beans: map<ClassDesc, Instance>, slots: map<string, Instance>,
                    fs: seq<FieldDesc>, table: map<string, ClassDesc>)
    requires Extends(cache, beans) && beans.Keys <= cache.Keys + SharedClasses(fs, table)
    requires WiredPrefix(slots, beans, fs, |fs|, table)
    ensures beans.Keys == cache.Keys + SharedClasses(fs, table)
  {
    forall x | x in SharedClasses(fs, table) ensures x in beans {
      var i :| 0 <= i < |fs| && SharedClass(fs[i], table).Some? && SharedClass(fs[i], table).value == x;
      assert FromCache(slots, beans, fs[i], table);
    }
  }

  class DIEngine {
    var controllers: set<ClassDesc>
    var qualifiers: set<ClassDesc>
    var beans: map<ClassDesc, Instance>
    const container: DependencyContainer
    const routes: EndpointsController

    /** The buckets hold what `processClass` puts there, and the cache maps
        each class to an instance of that class. */
    ghost predicate Valid()
      reads this
    {
      && (forall c :: c in controllers ==> c.controller && DistinctFieldNames(c.fields))
      && (forall c :: c in qualifiers ==> !c.controller && c.qualifier.Some?)
      && (forall c :: c in beans ==> beans[c].cls == c)
    }

    constructor ()
      ensures Valid()
      ensures controllers == {} && qualifiers == {} && beans == map[]
      ensures fresh(container) && container.table == map[]
      ensures fresh(routes) && routes.endpoints == map[]
    {
      controllers, qualifiers, beans := {}, {}, map[];
      container := new DependencyContainer();
      routes := new EndpointsController();
    }

    /** `processClass`: a @Controller class goes into `controllers` (even
        when it also has @Qualifier), otherwise a @Qualifier class goes into
        `qualifiers`, and any other class changes nothing. */
    method ProcessClass(cl: ClassDesc)
      requires Valid() && DistinctFieldNames(cl.fields)
      modifies this`controllers, this`qualifiers
      ensures Valid()
      ensures controllers == old(controllers) + (if cl.controller then {cl} else {})
      ensures qualifiers == old(qualifiers) + (if !cl.controller && cl.qualifier.Some? then {cl} else {})
    {
      if cl.controller {
        controllers := controllers + {cl};
      } else if cl.qualifier.Some? {
        qualifiers := qualifiers + {cl};
      }
    }

    /** The `forEach(this::processClass)` over the classes found under the
        source root, in discovery order. */
    method LoadClasses(classes: seq<ClassDesc>)
      requires Valid() && forall c :: c in classes ==> DistinctFieldNames(c.fields)
      modifies this`controllers, this`qualifiers
      ensures Valid()
      ensures controllers == old(controllers) + ControllerClasses(classes)
      ensures qualifiers == old(qualifiers) + QualifierClasses(classes)
    {
      var i := 0;
      while i < |classes|
        invariant 0 <= i <= |classes| && Valid()
        invariant controllers == old(controllers) + ControllerClasses(classes[..i])
        invariant qualifiers == old(qualifiers) + QualifierClasses(classes[..i])
      {
        assert classes[..i + 1] == classes[..i] + [classes[i]];
        ProcessClass(classes[i]);
        i := i + 1;
      }
      assert classes[..i] == classes;
    }

    /** `getBeanInstanceWithScope`: with SINGLETON scope the cached instance
        of `t` when there is one, otherwise a new instance that is cached;
        with any other scope a new instance and an unchanged cache. A cache
        entry is never replaced. */
    method GetBeanInstanceWithScope(t: ClassDesc, scope: Scope) returns (inst: Instance)
      requires Valid()
      modifies this`beans
      ensures Valid() && inst.cls == t
      ensures scope == Singleton && t in old(beans) ==> inst == old(beans)[t] && beans == old(beans)
      ensures scope == Singleton && t !in old(beans) ==> fresh(inst) && beans == old(beans)[t := inst]
      ensures scope != Singleton ==> fresh(inst) && beans == old(beans)
    {
      if scope == Singleton {
        if t in beans {
          inst := beans[t];
        } else {
          inst := new Instance(t);
          beans := beans[t := inst];
        }
      } else {
        inst := new Instance(t);
      }
    }

    /** `getBeanInstance`: the value for `field` declared with type `t`,
        following `BeanRecipe`; a shared value comes from, or goes into, the
        singleton cache, any other value is a new instance. */
    method GetBeanInstance(field: FieldDesc, t: ClassDesc) returns (r: Result<Instance, StartupError>)
      requires Valid()
      modifies this`beans
      ensures Valid()
      ensures Extends(old(beans), beans)
      ensures var recipe := BeanRecipe(field, t, container.table);
        && (r.Err? <==> recipe.Err?)
        && (r.Err? ==> r.error == recipe.error && beans == old(beans))
        && (r.Ok? ==> r.value.cls == recipe.value.cls)
        && (r.Ok? && Shared(recipe.value) && recipe.value.cls in old(beans) ==>
              r.value == old(beans)[recipe.value.cls] && beans == old(beans))
        && (r.Ok? && Shared(recipe.value) && recipe.value.cls !in old(beans) ==>
              fresh(r.value) && beans == old(beans)[recipe.value.cls := r.value])
        && (r.Ok? && !Shared(recipe.value) ==> fresh(r.value) && beans == old(beans))
    {
      match BeanRecipe(field, t, container.table)
      case Err(e) =>
        r := Err(e);
      case Ok(WithScope(c, scope)) =>
        var inst := GetBeanInstanceWithScope(c, scope);
        r := Ok(inst);
      case Ok(NewInstance(c)) =>
        var inst := new Instance(c);
        r := Ok(inst);
    }

    /** The body of the loop in `initClassFields`: an @Autowired field is
        assigned the value `getBeanInstance` gives for it; any other field
        is left alone. */
    method InitField(owner: Instance, f: FieldDesc) returns (r: Outcome<StartupError>)
      requires Valid()
      modifies this`beans, owner
      ensures Valid() && Extends(old(beans), beans)
      ensures beans.Keys <= old(beans).Keys + (if SharedClass(f, container.table).Some? then {SharedClass(f, container.table).value} else {})
      ensures f.autowired.None? ==> r.Pass? && owner.slots == old(owner.slots)
      ensures f.autowired.Some? && r.Fail? ==>
        BeanRecipe(f, f.fieldType, container.table) == Err(r.error) && owner.slots == old(owner.slots)
      ensures f.autowired.Some? && r.Pass? ==>
        && f.name in owner.slots
        && owner.slots == old(owner.slots)[f.name := owner.slots[f.name]]
        && WiredIn(owner.slots, f, container.table)
        && FromCache(owner.slots, beans, f, container.table)
        && (SharedClass(f, container.table).None? ==> fresh(owner.slots[f.name]))
    {
      r := Pass;
      if f.autowired.Some? {
        var value := GetBeanInstance(f, f.fieldType);
        if value.Err? {
          return Fail(value.error);
        }
        owner.slots := owner.slots[f.name := value.value];
      }
    }

    /** `initClassFields`: every @Autowired field of `owner` is assigned the
        value `getBeanInstance` gives for it, in declaration order, stopping
        at the first failure; no other field of `owner` changes. */
    method InitClassFields(owner: Instance, fs: seq<FieldDesc>) returns (r: Outcome<StartupError>)
      requires Valid() && DistinctFieldNames(fs)
      modifies this`beans, owner
      ensures Valid() && Extends(old(beans), beans)
      ensures beans.Keys <= old(beans).Keys + SharedClasses(fs, container.table)
      ensures owner.slots.Keys <= old(owner.slots).Keys + AutowiredNames(fs)
      ensures forall k :: k in old(owner.slots) && k !in AutowiredNames(fs) ==>
        k in owner.slots && owner.slots[k] == old(owner.slots)[k]
      ensures r.Pass? ==> WiredPrefix(owner.slots, beans, fs, |fs|, container.table)
      ensures r.Pass? ==> forall i :: 0 <= i < |fs| && fs[i].autowired.Some? && SharedClass(fs[i], container.table).None? ==>
        fs[i].name in owner.slots && fresh(owner.slots[fs[i].name])
      ensures r.Fail? ==> exists i :: 0 <= i < |fs| && fs[i].autowired.Some? &&
                                BeanRecipe(fs[i], fs[i].fieldType, container.table) == Err(r.error)
    {
      ghost var table := container.table;
      r := Pass;
      var i := 0;
      while i < |fs|
        invariant 0 <= i <= |fs| && Valid() && Extends(old(beans), beans) && r.Pass?
        invariant beans.Keys <= old(beans).Keys + SharedClasses(fs, table)
        invariant owner.slots.Keys <= old(owner.slots).Keys + AutowiredNames(fs[..i])
        invariant forall k :: k in old(owner.slots) && k !in AutowiredNames(fs[..i]) ==>
          k in owner.slots && owner.slots[k] == old(owner.slots)[k]
        invariant WiredPrefix(owner.slots, beans, fs, i, table)
        invariant forall j :: 0 <= j < i && fs[j].autowired.Some? && SharedClass(fs[j], table).None? ==>
          fs[j].name in owner.slots && fresh(owner.slots[fs[j].name])
      {
        assert fs[..i + 1][..i] == fs[..i];
        ghost var before, cache := owner.slots, beans;
        r := InitField(owner, fs[i]);
        if r.Fail? {
          AutowiredPrefix(fs, i);
          return;
        }
        KeepWired(before, owner.slots, cache, beans, fs, i, table);
        assert SharedClass(fs[i], table).Some? ==> SharedClass(fs[i], table).value in SharedClasses(fs, table);
        forall j | 0 <= j < i && fs[j].autowired.Some? && SharedClass(fs[j], table).None?
          ensures fs[j].name in owner.slots && fresh(owner.slots[fs[j].name])
        {
          assert fs[j].name != fs[i].name;
        }
        i := i + 1;
      }
      assert fs[..i] == fs;
    }

    /** The body of the loop in `initControllersFields`: a new instance of
        the controller class, whose fields are then wired. */
    method WireController(cl: ClassDesc) returns (r: Outcome<StartupError>, inst: Instance)
      requires Valid() && DistinctFieldNames(cl.fields)
      modifies this`beans
      ensures Valid() && Extends(old(beans), beans)
      ensures fresh(inst) && inst.cls == cl
      ensures beans.Keys <= old(beans).Keys + SharedClasses(cl.fields, container.table)
      ensures r.Pass? ==> beans.Keys == old(beans).Keys + SharedClasses(cl.fields, container.table)
      ensures r.Pass? ==> WiredPrefix(inst.slots, beans, cl.fields, |cl.fields|, container.table)
      ensures r.Pass? <==> Resolvable({cl}, container.table)
    {
      inst := new Instance(cl);
      r := InitClassFields(inst, cl.fields);
      if r.Pass? {
        CacheGains(old(beans), beans, inst.slots, cl.fields, container.table);
        ResolvableAdd({}, cl, inst.slots, beans, container.table);
        assert {} + {cl} == {cl};
      } else {
        var i :| 0 <= i < |cl.fields| && cl.fields[i].autowired.Some? &&
          BeanRecipe(cl.fields[i], cl.fields[i].fieldType, container.table) == Err(r.error);
      }
    }

    /** `initControllersFields`: every controller class (in unspecified set
        order) is constructed exactly once and its fields are wired. The
        wired instances are not kept anywhere: the engine drops them, so
        what lasts is the verdict and what the singleton cache gains. It
        succeeds exactly when every @Autowired field of every controller
        resolves, whatever the order, and then the cache gains exactly the
        singletons those fields use. */
    method InitControllersFields() returns (r: Outcome<StartupError>, ghost wired: map<ClassDesc, Instance>)
      requires Valid()
      modifies this`beans
      ensures Valid()
      ensures Extends(old(beans), beans)
      ensures r.Pass? <==> Resolvable(controllers, container.table)
      ensures beans.Keys <= old(beans).Keys + ControllerSingletons(controllers, container.table)
      ensures r.Pass? ==> beans.Keys == old(beans).Keys + ControllerSingletons(controllers, container.table)
      ensures wired.Keys <= controllers && (r.Pass? ==> wired.Keys == controllers)
      ensures forall c :: c in wired ==> fresh(wired[c]) && wired[c].cls == c
      ensures r.Pass? ==> AllWired(wired, beans, container.table)
    {
      ghost var table := container.table;
      var rest := controllers;
      wired := map[];
      r := Pass;
      assert ControllerSingletons({}, table) == {};
      while rest != {}
        invariant Valid() && r.Pass? && WiredSoFar(old(beans), beans, wired, controllers, rest, table)
        invariant forall c :: c in wired ==> fresh(wired[c]) && wired[c].cls == c
        decreases rest
      {
        var cl :| cl in rest;
        ghost var cache := beans;
        var inst;
        r, inst := WireController(cl);
        if r.Fail? {
          WiredFail(old(beans), cache, beans, wired, controllers, rest, cl, table);
          return;
        }
        WiredPass(old(beans), cache, beans, wired, controllers, rest, cl, inst, table);
        wired := wired[cl := inst];
        rest := rest - {cl};
      }
    }

    /** `engineStart`: classify the discovered classes, build the qualifier
        table, wire the controllers, then register their endpoints. Each
        step runs only when the previous one succeeded. The endpoints end up
        served by the un-injected instances the EndpointsController
        constructs, not by the instances that were wired. */
    method EngineStart(classes: seq<ClassDesc>) returns (r: Outcome<StartupError>, ghost made: map<ClassDesc, Instance>)
      requires Valid() && forall c :: c in classes ==> DistinctFieldNames(c.fields)
      modifies this, container, routes
      ensures Valid()
      ensures controllers == old(controllers) + ControllerClasses(classes)
      ensures qualifiers == old(qualifiers) + QualifierClasses(classes)
      // startup succeeds exactly when no qualifier value is taken twice,
      // every @Autowired field of every controller resolves, and no two
      // @Path methods share a route
      ensures r.Pass? <==>
        && Unambiguous(old(container.table), qualifiers)
        && Resolvable(controllers, container.table)
        && Routable(old(routes.endpoints), controllers)
      ensures !Unambiguous(old(container.table), qualifiers) ==> r == Fail(AmbiguousMapping)
      // on success the qualifier table gains exactly the qualifier values
      ensures r.Pass? ==> container.table.Keys == old(container.table).Keys + (set c | c in qualifiers :: c.qualifier.value)
      ensures r.Pass? ==> forall c :: c in qualifiers ==> container.table[c.qualifier.value] == c
      // on success the routes gain exactly the keys of the controllers' @Path
      // methods, each served by the instance `made` holds for its class
      ensures r.Pass? ==> routes.endpoints.Keys == old(routes.endpoints).Keys + AllKeys(controllers)
      ensures r.Pass? ==> made.Keys == controllers && RoutesAll(routes.endpoints, made)
      ensures Kept(old(routes.endpoints), routes.endpoints) && AddedBy(old(routes.endpoints), routes.endpoints, made)
      ensures forall c :: c in made ==> fresh(made[c]) && made[c].slots == map[]
    {
      made := map[];
      LoadClasses(classes);
      ghost var order;
      r, order := container.InitQualifiers(qualifiers);
      if r.Fail? {
        return;
      }
      ghost var wired;
      r, wired := InitControllersFields();
      if r.Fail? {
        return;
      }
      r, made := routes.InitControllersEndpoints(controllers);
    }
  }
}
