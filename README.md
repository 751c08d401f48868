# A verified model of a small Java dependency-injection and HTTP framework

The framework starts in three steps. First it discovers the classes under a
source root and sorts them into controllers and qualifier implementations.
Then it binds every qualifier value to the class that declares it and
creates the controllers, filling their `@Autowired` fields. A field typed by
an interface goes through a qualifier lookup. A concrete type is resolved by
`@Bean` scope, then `@Service` (singleton), then `@Component` (fresh). Last,
it registers every `@Path` method of every controller under the route key
`"GET <path>"` or `"POST <path>"`.

After startup, each connection is served by a `ServerThread`. It reads the
request line, the header lines up to the first blank line and, for POST,
a body of `Content-Length` characters. It then looks up the route key made
of the verb and the path before the first `?`, invokes the endpoint, and
writes the rendered response.

The model replaces Java reflection with descriptor records. A `ClassDesc`
records the markers a class carries, its fields and its methods. A
constructed object is a Dafny `Instance` object, so Dafny reference identity
stands for Java object identity: the singleton cache hands back the same
`Instance` on every hit. The three engines are classes whose fields the
methods update in place:

- `DependencyContainer.table` is the qualifier table.
- `DIEngine.controllers`, `DIEngine.qualifiers` and `DIEngine.beans` are the two buckets and the singleton cache.
- `EndpointsController.endpoints` is the route table.
- `ServerThread` holds the unread input lines, the unread characters, the lines written and whether the connection was closed.

Each Java loop over a `HashSet` or a map key set is a loop that picks an
arbitrary remaining element:

- `InitQualifiers` returns the order it took as a ghost sequence, and its table and verdict are proved equal to the sequential function `Bind` over that order. `BindSucceedsIff` shows that the verdict does not depend on the order.
- `InitControllersFields` and `InitControllersEndpoints` are specified by conditions on the set itself. `Resolvable` says every `@Autowired` field of every controller resolves. `Routable` says the controllers' route keys are fresh and pairwise distinct. Each method succeeds if and only if its condition holds, whatever the order.
- `MergeParameters` loops over a key set and is proved equal to the right-biased union `Overrides`.

The `getDeclaredMethods` loop is proved equal to the sequential function `Register`, and the request reader to `ParseRequest`. The `getDeclaredFields` loop is specified field by field: `WiredPrefix` says each `@Autowired` field visited holds the value `getBeanInstance` gave for it.

The Java library calls the core depends on are written out exactly:

- `String.replace` and `replaceAll` with a literal pattern (`JavaStrings.ReplaceAll`).
- `String.split` with limit 0 (`JavaStrings.Split`). It returns `[s]` when the separator does not occur and otherwise drops trailing empty strings, possibly leaving nothing.
- `String.trim` (`JavaStrings.Trim`).
- `Integer.parseInt` with ASCII digits and the 32-bit range (`JavaStrings.ParseInt`).

Files:

- `wrappers.dfy`: `Option`, `Result` and `Outcome`.
- `strings.dfy` (module `JavaStrings`): the library calls above.
- `descriptors.dfy`: class, field and method descriptors, startup errors, `Instance`.
- `container.dfy`: `DependencyContainer`.
- `wire.dfy`: `Request`, `HeaderLine` and the value an endpoint returns.
- `endpoints.dfy`: `EndpointsController`.
- `engine.dfy`: `DIEngine`.
- `server.dfy`: `ServerThread`.

## Where the code and the design differ

In each case below the model follows the code.

- A method with both `@GET` and `@POST` registers as GET (EndpointsController.java:62-64). The design calls this a fatal error.
- The controller instance wired in `initControllersFields` is dropped (DIEngine.java:86-87). The routes are served by a second, un-injected instance that `initControllersEndpoints` constructs (EndpointsController.java:37). `DIEngine.EngineStart` states that every new endpoint's controller is fresh and has no field assigned.
- A header line is recorded only when `split(": ")` yields exactly two parts (ServerThread.java:76-78). It is not split at its first delimiter. So "A: b: c" is skipped, while "A: b: " loses its empty last part and is recorded as (A, b).
- The request line is split on single spaces, not on whitespace (ServerThread.java:68). A line of spaces only makes `actionRow[0]` throw.
- `getClassPath` turns only backslashes into dots (DIEngine.java:53). On a file system with `/` separators the slashes stay in the class name (`ClassPathWithSlashes`). Every `.java` is removed, not only the extension, so a package directory whose name starts with `java` is mangled (`JavaSegmentRemoved`).
- On every exception, `run` neither writes nor closes the streams and the socket (ServerThread.java:57-59). The design closes a connection unconditionally. The connection is closed only when no line was read or when the dispatch returned.
- A route consisting only of `?` characters makes `split("\\?")[0]` throw (ServerThread.java:48).
- A negative `Content-Length` fails when the buffer is allocated (ServerThread.java:84). A missing one, and one that is not a number in the 32-bit range, fail in `parseInt` (ServerThread.java:83).
- An unbound qualifier makes `getBeanInstance` recurse on `null` and throw a NullPointerException (DIEngine.java:114-115). A qualifier bound to an interface makes it recurse forever. The model reports `UnboundQualifier` and `QualifierLoop`.
- `invokeEndpoint` passes the request as the single argument (ServerThread.java:49). An endpoint method whose parameter count is not one fails in `Method.invoke` (`WrongArity`).

## Model

| member | source | states |
|---|---|---|
| JavaStrings.IndexOf | src/main/java/framework/DIEngine.java:53 | the result is the first position where the pattern occurs, and None means it occurs nowhere |
| JavaStrings.ReplaceAll | src/main/java/framework/DIEngine.java:53 | every character of the result comes from the text or from the replacement |
| JavaStrings.ReplaceCharPointwise | src/main/java/framework/DIEngine.java:53 | replacing one character by another keeps the length and changes exactly the positions holding that character |
| JavaStrings.RemoveAllShrinks | src/main/java/framework/DIEngine.java:53 | deleting every occurrence of a pattern never makes the text longer |
| JavaStrings.ReplaceLeading | src/main/java/framework/DIEngine.java:53 | a leading occurrence is replaced and the scan resumes after it |
| JavaStrings.ReplaceSkips | src/main/java/framework/DIEngine.java:53 | a prefix in which no occurrence starts is copied unchanged |
| JavaStrings.ReplaceAbsent | src/main/java/framework/DIEngine.java:53 | text in which the pattern does not occur is left as it is |
| JavaStrings.Split | src/main/java/server/ServerThread.java:68 | without the separator the result is the whole text; otherwise it is the pieces between separators minus trailing empty pieces, ending in a non-empty one; no element holds the separator |
| JavaStrings.Pieces | src/main/java/server/ServerThread.java:68 | split always yields at least one piece before trailing empties are dropped |
| JavaStrings.DropTrailingEmpty | src/main/java/server/ServerThread.java:68 | the result is a prefix ending in a non-empty string, and everything dropped is empty |
| JavaStrings.SplitHead | src/main/java/server/ServerThread.java:48 | when split yields anything, its first element is the text before the first separator |
| JavaStrings.IndexOfAfter | src/main/java/server/ServerThread.java:76 | the first separator in a + d + rest is right after a when the separator does not occur before that |
| JavaStrings.SplitPair | src/main/java/server/ServerThread.java:76 | splitting a + d + b, where d occurs only between the parts, gives [a, b] minus trailing empty parts |
| JavaStrings.SplitTriple | src/main/java/server/ServerThread.java:76 | splitting a + d + b + d + c, where d occurs only at the two joints, gives [a, b, c] minus trailing empty parts |
| JavaStrings.PiecesAllEmpty | src/main/java/server/ServerThread.java:48 | all pieces are empty if and only if the text is made of the separator character only |
| JavaStrings.SplitEmptyIff | src/main/java/server/ServerThread.java:48 | split on one character yields nothing exactly when the text is non-empty and made of that character only |
| JavaStrings.TrimStart | src/main/java/server/ServerThread.java:80 | the result is a suffix of the text; every character dropped is at most a space and the result starts above a space |
| JavaStrings.TrimEnd | src/main/java/server/ServerThread.java:80 | the result is a prefix of the text; every character dropped is at most a space and the result ends above a space |
| JavaStrings.Trim | src/main/java/server/ServerThread.java:80 | the text is the result with blank text on either side, and a non-empty result starts and ends above a space |
| JavaStrings.TrimEmptyIff | src/main/java/server/ServerThread.java:80 | trim gives "" if and only if every character is at most a space |
| JavaStrings.ParseInt | src/main/java/server/ServerThread.java:83 | a value is given exactly for an optional sign followed by at least one digit whose signed value lies in the 32-bit range, and it lies in that range; any other text is a NumberFormatException |
| JavaStrings.ParseIntRejects | src/main/java/server/ServerThread.java:83 | empty text, a sign alone, a non-digit after the optional sign and a numeral beyond the 32-bit range are all refused |
| JavaStrings.DecimalValue | src/main/java/server/ServerThread.java:83 | the decimal digits of n denote n |
| JavaStrings.ParseIntDecimal | src/main/java/server/ServerThread.java:83 | parseInt reads back a decimal numeral, with or without a plus sign |
| JavaStrings.ParseIntNegative | src/main/java/server/ServerThread.java:83 | parseInt reads "-" followed by a decimal numeral as the negative number |
| Engine.ClassPath | src/main/java/framework/DIEngine.java:53 | the class name holds no backslash and is no longer than the absolute path |
| Engine.ClassPathOfSource | src/main/java/framework/DIEngine.java:53 | for root + rel + ".java", where the root does not occur again and ".java" occurs only as the extension, the class name is rel with each backslash turned into a dot and every other character kept |
| Engine.ClassPathWithSlashes | src/main/java/framework/DIEngine.java:53 | with "/" separators and no dot in the relative path, the class name is the relative path, slashes included |
| Engine.JavaSegmentRemoved | src/main/java/framework/DIEngine.java:53 | every ".java" is removed, so a package directory whose name starts with "java" loses that prefix and the separator before it |
| Engine.DIEngine.ProcessClass | src/main/java/framework/DIEngine.java:65-71 | a @Controller class goes only into controllers, even with @Qualifier; otherwise a @Qualifier class goes into qualifiers; any other class changes neither |
| Engine.DIEngine.LoadClasses | src/main/java/framework/DIEngine.java:45-49 | after processing the discovered classes, the buckets gained exactly the controller classes and the non-controller qualifier classes |
| Engine.BucketsDisjoint | src/main/java/framework/DIEngine.java:65-71 | no class lands in both buckets |
| Engine.BeanRecipe | src/main/java/framework/DIEngine.java:107-134 | an interface needs a field qualifier bound to a concrete class and resolves to that class; a concrete class resolves by @Bean scope, then @Service as singleton, then @Component as fresh, else fails; each error case is named |
| Engine.RecipePrecedence | src/main/java/framework/DIEngine.java:118-129 | @Bean decides over @Service, which decides over @Component |
| Engine.QualifiedInterfaceResolves | src/main/java/framework/DIEngine.java:108-116 | after the qualifier table was built, an interface field qualified by a class's value resolves to that class |
| Engine.AutowiredNames | src/main/java/framework/DIEngine.java:99 | a name is in the set exactly when some @Autowired field has it |
| Engine.DIEngine.GetBeanInstanceWithScope | src/main/java/framework/DIEngine.java:136-147 | singleton: the cached instance on a hit with the cache unchanged, a fresh cached instance on a miss; other scopes: a fresh instance and an unchanged cache |
| Engine.DIEngine.GetBeanInstance | src/main/java/framework/DIEngine.java:107-134 | fails exactly when the recipe fails, with its error; the value has the resolved class; shared values come from or go into the cache, all others are fresh; cache entries are never replaced |
| Engine.DIEngine.InitField | src/main/java/framework/DIEngine.java:96-103 | an @Autowired field gets the value getBeanInstance gives: the cache's singleton for a shared class, a fresh instance otherwise; no other slot changes; a failure changes no slot and carries the recipe's error; any other field changes nothing |
| Engine.DIEngine.InitClassFields | src/main/java/framework/DIEngine.java:95-105 | on success every @Autowired field holds an instance of its resolved class, the cache's singleton when shared and a fresh instance otherwise; on failure some @Autowired field's resolution failed with that error; fields without @Autowired keep their values; the cache gains only the fields' singletons |
| Engine.DIEngine.WireController | src/main/java/framework/DIEngine.java:86-87 | a fresh instance of the class; succeeds exactly when every @Autowired field of the class resolves, and then all its fields are wired and the cache gains exactly their singletons |
| Engine.WiredFail | src/main/java/framework/DIEngine.java:84-92 | a controller whose wiring fails shows that the whole set of controllers is not resolvable |
| Engine.DIEngine.InitControllersFields | src/main/java/framework/DIEngine.java:82-93 | succeeds if and only if every @Autowired field of every controller resolves, whatever the set order; then the cache gains exactly the singletons those fields use and each controller was constructed once into a fresh, fully wired instance; the cache is only extended |
| Engine.DIEngine.EngineStart | src/main/java/framework/DIEngine.java:29-33 | the buckets are filled; startup succeeds if and only if the qualifier values are unambiguous, every @Autowired field of every controller resolves and the route keys are fresh and pairwise distinct; an ambiguous value fails with AmbiguousMapping; on success the qualifier table gains exactly the qualifier values, each bound to its class, and the routes gain exactly the @Path keys, each served by a fresh instance with no field assigned |
| Container.BindOne | src/main/java/framework/DependencyContainer.java:23-27 | fails exactly when the value is already bound, leaving the table unchanged; otherwise binds the value to the class |
| Container.Bind | src/main/java/framework/DependencyContainer.java:22-28 | bindings already in the table are never replaced; a failure is an ambiguous mapping |
| Container.BindFailKeepsPrefix | src/main/java/framework/DependencyContainer.java:22-28 | a failing loop ends with the table the classes before the failing one built, whose value was already bound there |
| Container.BindAddsDeclarers | src/main/java/framework/DependencyContainer.java:22-28 | every key the loop adds is the qualifier value of one of the classes |
| Container.BindBindsDeclarers | src/main/java/framework/DependencyContainer.java:22-28 | on success the keys are the old keys plus the classes' values, and each value maps to the class that declared it |
| Container.NamesOf | src/main/java/framework/DependencyContainer.java:23 | a value is among the names exactly when some class declares it |
| Container.UnambiguousSubset | src/main/java/framework/DependencyContainer.java:24-26 | a subset of an unambiguous set of classes is unambiguous |
| Container.UnambiguousAdd | src/main/java/framework/DependencyContainer.java:24-26 | adding a class keeps the set unambiguous exactly when its value is unbound and unused by the others |
| Container.BindLastVerdict | src/main/java/framework/DependencyContainer.java:24-27 | one more class succeeds exactly when its value is bound neither before nor by the earlier classes |
| Container.BindSucceedsIff | src/main/java/framework/DependencyContainer.java:22-28 | the loop succeeds if and only if no two classes share a value and none reuses an already-bound one, whatever the iteration order |
| Container.BindAll | src/main/java/framework/DependencyContainer.java:22-28 | a successful loop over an enumeration of a set shows the set unambiguous, binds each value to its class and adds exactly those values |
| Container.BindMeetsBound | src/main/java/framework/DependencyContainer.java:22-26 | a loop that fails after visiting part of a set shows the whole set ambiguous |
| Container.DependencyContainer.InitQualifiers | src/main/java/framework/DependencyContainer.java:20-29 | visits each class once in some order; succeeds exactly when the set is unambiguous against the existing table; on success each value maps to its class and nothing else was added; on failure the bindings made before the failing class stay |
| Container.DependencyContainer.ClassByQualifier | src/main/java/framework/DependencyContainer.java:31-33 | the bound class, or None for an unbound value, reading the table only |
| Endpoints.HttpMethod | src/main/java/framework/EndpointsController.java:61-69 | "GET " when @GET is present (even with @POST), else "POST " with @POST, else an unsupported-method error |
| Endpoints.RouteKey | src/main/java/framework/EndpointsController.java:48-49 | the key is "GET " or "POST " followed by the path |
| Endpoints.RouteKeyInjective | src/main/java/framework/EndpointsController.java:49 | equal route keys come from the same verb and the same path |
| Endpoints.RegisterOne | src/main/java/framework/EndpointsController.java:46-57 | a method without @Path changes nothing; an existing key fails with the table unchanged; otherwise exactly one new key maps to this controller and method |
| Endpoints.Register | src/main/java/framework/EndpointsController.java:45-59 | entries present before are never changed |
| Endpoints.RegisterStops | src/main/java/framework/EndpointsController.java:51-53 | after the first failure the remaining methods are not looked at |
| Endpoints.KeysOf | src/main/java/framework/EndpointsController.java:47-49 | a key is among a controller's route keys exactly when some @Path method builds it |
| Endpoints.RegisterAdds | src/main/java/framework/EndpointsController.java:55-56 | every new entry is a @Path method of this controller under its own key, sharing the one controller instance |
| Endpoints.RegisterAddsKeys | src/main/java/framework/EndpointsController.java:45-59 | on success the table gained exactly the route keys of the @Path methods |
| Endpoints.RegisterRegistersAll | src/main/java/framework/EndpointsController.java:45-59 | on success every @Path method is registered under its key with this controller |
| Endpoints.RegisterSucceedsIff | src/main/java/framework/EndpointsController.java:47-53 | registration succeeds if and only if every @Path method has a verb and a key unused before and by the other methods |
| Endpoints.Invoke | src/main/java/framework/EndpointsController.java:83-90 | a result is what the method returned for exactly its declared number of arguments; otherwise an arity or thrown-exception error |
| Endpoints.EndpointsController.InvokeEndpoint | src/main/java/framework/EndpointsController.java:29-31 | an unregistered key gives null and reads the table only; a registered one invokes its endpoint |
| Endpoints.EndpointsController.InitEndpointsForController | src/main/java/framework/EndpointsController.java:45-59 | the new table and verdict are those of registering the methods in order |
| Endpoints.RoutableAdd | src/main/java/framework/EndpointsController.java:35-42 | registering one more class into the table the other classes built succeeds exactly when the larger set of classes is routable |
| Endpoints.RegisteredFail | src/main/java/framework/EndpointsController.java:35-42 | a class whose registration fails shows that the whole set of classes is not routable |
| Endpoints.EndpointsController.RegisterController | src/main/java/framework/EndpointsController.java:37-41 | a fresh, un-injected instance; succeeds exactly when the class's route keys are fresh and pairwise distinct; then the table gains exactly those keys, each routed to that instance; old entries are kept |
| Endpoints.EndpointsController.InitControllersEndpoints | src/main/java/framework/EndpointsController.java:33-43 | succeeds if and only if every class's route keys are fresh and no two classes share a key, whatever the order; then the table gains exactly those keys, every @Path method routed to its class's fresh, un-injected instance; old entries are kept |
| Server.RequestLine | src/main/java/server/ServerThread.java:68-70 | the verb is the text before the first space and names a Method constant; no token or an unknown verb fails |
| Server.RequestLineOf | src/main/java/server/ServerThread.java:68-70 | "VERB ROUTE" and "VERB ROUTE PROTOCOL" yield that verb and that route |
| Server.RequestLineSpaces | src/main/java/server/ServerThread.java:68-69 | a line of spaces only fails at actionRow[0] |
| Server.RequestLineNoRoute | src/main/java/server/ServerThread.java:70 | a verb with no route fails at actionRow[1] |
| Server.HeaderOf | src/main/java/server/ServerThread.java:76-78 | a recorded header has a non-empty value, neither part holds ": ", and the line starts with name, ": " and value |
| Server.HeaderOfPair | src/main/java/server/ServerThread.java:76-79 | "Name: value" records (Name, value) when the value is non-empty, and "Name: " is skipped; either part may hold ":" (as in "Host: localhost:8080") but not ": " |
| Server.HeaderOfTriple | src/main/java/server/ServerThread.java:76-79 | a line with the delimiter twice is skipped, except that "A: b: " is recorded as (A, b) |
| Server.BlankIsNoHeader | src/main/java/server/ServerThread.java:76-80 | the blank line ending the headers is never recorded |
| Server.RecordedSnoc | src/main/java/server/ServerThread.java:75-79 | reading one more line appends exactly what that line records |
| Server.RecordedFromLines | src/main/java/server/ServerThread.java:76-79 | every recorded header is the split of one of the lines |
| Server.HeaderBlock | src/main/java/server/ServerThread.java:74-80 | the block ends at the first blank line; None means no line was blank and the input ran out |
| Server.HeaderBlockNone | src/main/java/server/ServerThread.java:74-80 | input without a blank line has no header block |
| Server.HeaderBlockAt | src/main/java/server/ServerThread.java:74-80 | when line n is the first blank one, the block consumes exactly n + 1 lines |
| Server.HeaderBlockRecords | src/main/java/server/ServerThread.java:74-80 | the headers of the block are those its lines record |
| Server.ContentLength | src/main/java/server/ServerThread.java:83-84 | a length is the parsed Content-Length header; a missing header or one that parseInt refuses fails with BadContentLength; the negative-length error occurs exactly for a parsed negative value |
| Server.ContentLengthNotNumeric | src/main/java/server/ServerThread.java:83 | an empty header, a header holding a non-digit and a numeral beyond 32 bits fail the connection |
| Server.ContentLengthDecimal | src/main/java/server/ServerThread.java:83-84 | a decimal header gives that length, and a negative one is refused |
| Server.Body | src/main/java/server/ServerThread.java:84-86 | the body has exactly the requested length: the next characters, padded with NUL when fewer remain |
| Server.MergeParameters | src/main/java/server/ServerThread.java:89-91 | the merged parameters hold every key of either map, with the body value winning |
| Server.OverridesIsUnion | src/main/java/server/ServerThread.java:89-91 | that merge is exactly the right-biased union of the two maps |
| Server.Parameters | src/main/java/server/ServerThread.java:72-92 | a non-POST request has exactly the query parameters and reads no body; a POST request has the body parameters put over the query parameters |
| Server.ParseRequest | src/main/java/server/ServerThread.java:62-97 | no line at all gives no request and consumes nothing; a request carries the verb and route of its first line, the headers of the following block and the merged parameters |
| Server.DispatchKey | src/main/java/server/ServerThread.java:48 | the key is the verb, one space and the route before the first "?"; it is missing exactly when the route is made of "?" only |
| Server.DispatchReachesRoute | src/main/java/server/ServerThread.java:48 | a request for an endpoint's path, with or without a query string, looks up the key the endpoint was registered under |
| Server.ServerThread.ReadLine | src/main/java/server/ServerThread.java:63 | the next line is consumed, or None at the end of input |
| Server.ServerThread.ReadBody | src/main/java/server/ServerThread.java:84-86 | reads the body and consumes the characters read |
| Server.ServerThread.ReadHeaders | src/main/java/server/ServerThread.java:74-80 | the loop consumes and records exactly the header block |
| Server.ServerThread.ReadParameters | src/main/java/server/ServerThread.java:82-92 | the parameters and characters consumed are those of Parameters |
| Server.ServerThread.GenerateRequest | src/main/java/server/ServerThread.java:62-97 | the result and the input consumed are those of ParseRequest |
| Server.ServerThread.Run | src/main/java/server/ServerThread.java:38-60 | nothing is written unless the endpoint returns a Response; the connection is closed when no request was read or after a dispatch that returned, and left open after any failure |

## Left out

- Sockets, streams and threads (ServerThread.java:15-36): the connection is a sequence of lines, the characters after them, a list of written lines and a closed flag.
- Server.Body: lengths are counted in Unicode scalar values, not in UTF-16 code units as Java's `char[contentLength]` and `in.read` count them (ServerThread.java:84-86). For a body with a character outside the Basic Multilingual Plane the model reads a different text than Java.
- Reading the body assumes `in.read` fills the buffer from the available characters. A short read that stops early while more input remains is not modelled.
- Filesystem traversal and the working-directory root (DIEngine.java:35-50, 160-162): discovery is a sequence of class descriptors, and `getClassPath` is modelled on its own.
- `Class.forName` (DIEngine.java:56-63): a class name that does not load is not modelled; the descriptors stand for loaded classes.
- Java reflection (`getDeclaredConstructor().newInstance()`, `Field.set`, `Method.invoke`): replaced by descriptors, `new Instance` and the `Env.call` parameter. A missing no-argument constructor and access errors are not modelled.
- Endpoints.Invoke: the argument type check of `Method.invoke` is not modelled; only the argument count is checked, and the method body is the `call` parameter.
- Logging (DIEngine.java:102, 131, 149-154) is not modelled. The verbose flag of `@Autowired` only selects logging, so it cannot change how a field resolves, and `BeanRecipe` never reads it.
- The type check of `Field.set` (DIEngine.java:101) is not modelled: descriptors do not record the interfaces a class implements. A qualifier bound to a class that does not implement the field's interface makes `Field.set` throw IllegalArgumentException and aborts startup, while the model wires it.
- The lazy global `getInstance()` singletons: the engines are explicit objects passed to each other (`DIEngine.container`, `DIEngine.routes`, the `routes` argument of `Run`).
- `Helper.getParametersFromRoute`, `Helper.getParametersFromJsonBody`, `Header.add`/`Header.get`, the `Method` enum and `Response.render` are not part of this model. They are the `Env` parameters and the `Returned` datatype. Headers are kept as the ordered list of `add` calls, so repeated names are not resolved.
- JavaStrings.ParseInt: only ASCII digits are accepted; `Integer.parseInt` also accepts other Unicode decimal digits.
- Scope constants of `ScopeType` other than SINGLETON are one value, `Prototype`; the code only tests for SINGLETON.
- Engine.BeanRecipe: the endless recursion on a qualifier bound to an interface and the NullPointerException on an unbound qualifier are reported as errors rather than run.
- Engine.DIEngine.EngineStart: the order in which `HashSet` iteration visits the controllers is left unspecified, so which error is reported when several controllers fail is not stated; only that startup fails.
- Fixture classes (`test.controllers`, `test.qualifiers`) hold no engine logic and are not modelled.
