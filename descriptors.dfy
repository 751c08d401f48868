/** The data that replaces Java reflection: a class is a record of the
    markers the engines read (@Controller, @Qualifier, @Bean(scope),
    @Service, @Component), its declared fields and its declared methods.
    A constructed object is an `Instance`, so that object identity (the
    singleton cache, the shared controller of an endpoint) is Dafny
    reference identity. */
module Descriptors {
  import opened Wrappers

  /** The scope of a @Bean. Only "singleton or not" matters to the engine,
      so every other constant of ScopeType is represented by `Prototype`. */
  datatype Scope = Singleton | Prototype

  datatype ClassDesc = ClassDesc(
    name: string,               // Class.getName()
    isInterface: bool,          // Class.isInterface()
    controller: bool,           // @Controller
    qualifier: Option<string>,  // @Qualifier(value)
    bean: Option<Scope>,        // @Bean(scope)
    service: bool,              // @Service
    component: bool,            // @Component
    fields: seq<FieldDesc>,     // getDeclaredFields()
    methods: seq<MethodDesc>)   // getDeclaredMethods()

  datatype FieldDesc = FieldDesc(
    name: string,
    fieldType: ClassDesc,       // Field.getType()
    autowired: Option<bool>,    // @Autowired(verbose), None when absent
    qualifier: Option<string>)  // @Qualifier(value) on the field

  datatype MethodDesc = MethodDesc(
    name: string,
    path: Option<string>,       // @Path(path)
    get: bool,                  // @GET
    post: bool,                 // @POST
    arity: nat)                 // number of declared parameters

  /** The configuration errors that abort startup (each one is a thrown
      RuntimeException, NullPointerException, StackOverflowError or
      IllegalArgumentException in the Java code). */
  datatype StartupError =
    | AmbiguousMapping                                    // two classes, one qualifier value
    | InterfaceWithoutQualifier(field: string, typeName: string)
    | UnboundQualifier(field: string, qualifier: string)  // lookup gives null: NullPointerException
    | QualifierLoop(field: string, qualifier: string)     // bound to an interface: endless recursion
    | NoRole(field: string)                               // none of @Bean, @Service, @Component
    | DuplicateEndpoint(route: string)
    | UnsupportedHttpMethod(methodName: string)

  /** Field names of a class are distinct, as the Java compiler guarantees. */
  predicate DistinctFieldNames(fs: seq<FieldDesc>)
  {
    forall i, j :: 0 <= i < j < |fs| ==> fs[i].name != fs[j].name
  }

  /** An object built by `getDeclaredConstructor().newInstance()`: its class,
      and the reference fields assigned so far by `Field.set`. */
  class Instance {
    const cls: ClassDesc
    var slots: map<string, Instance>

    constructor (cls: ClassDesc)
      ensures this.cls == cls && slots == map[]
    {
      this.cls := cls;
      slots := map[];
    }
  }
}
