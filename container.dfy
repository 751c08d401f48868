/** DependencyContainer: the table from qualifier value to the class that
    declared it, built once from the qualifier classes and then only read. */
module Container {
  import opened Wrappers
  import opened Descriptors

  /** Every class in `cs` carries @Qualifier. */
  predicate AllQualified(cs: seq<ClassDesc>)
  {
    forall i :: 0 <= i < |cs| ==> cs[i].qualifier.Some?
  }

  /** The qualifier values declared by the classes of `cs`. */
  function Names(cs: seq<ClassDesc>): set<string>
    requires AllQualified(cs)
  {
    if cs == [] then {} else Names(cs[..|cs| - 1]) + {cs[|cs| - 1].qualifier.value}
  }

  /** One iteration of `initQualifiers`: bind `c` under its qualifier value,
      or fail with "Ambiguous mapping" when the value is already bound
      (`get(key) != null`: the table never holds null). */
  function BindOne(table: map<string, ClassDesc>, c: ClassDesc): (r: (map<string, ClassDesc>, Outcome<StartupError>))
    requires c.qualifier.Some?
    ensures r.1.Fail? <==> c.qualifier.value in table
    ensures r.1.Fail? ==> r == (table, Fail(AmbiguousMapping))
    ensures r.1.Pass? ==> r.0 == table[c.qualifier.value := c]
  {
    var key := c.qualifier.value;
    if key in table then (table, Fail(AmbiguousMapping)) else (table[key := c], Pass)
  }

  /** The loop of `initQualifiers` over the classes in the order `cs`, from
      the table `table`: the table after the loop and the outcome. A failure
      stops the loop and keeps the bindings made before it. */
  function Bind(table: map<string, ClassDesc>, cs: seq<ClassDesc>): (r: (map<string, ClassDesc>, Outcome<StartupError>))
    requires AllQualified(cs)
    // an existing binding is never replaced, whether the loop fails or not
    ensures forall k :: k in table ==> k in r.0 && r.0[k] == table[k]
    ensures r.1.Fail? ==> r.1.error == AmbiguousMapping
    decreases |cs|
  {
    if cs == [] then (table, Pass)
    else
      var init := cs[..|cs| - 1];
      assert AllQualified(init);
      var (t, o) := Bind(table, init);
      if o.Fail? then (t, o) else BindOne(t, cs[|cs| - 1])
  }

  /** A failing loop ends with the table that the classes before the
      failing one built: the bindings this call made before the failure
      stay, and the failing class changes nothing. */
  lemma {:induction false} BindFailKeepsPrefix(table: map<string, ClassDesc>, cs: seq<ClassDesc>)
    requires AllQualified(cs) && Bind(table, cs).1.Fail?
    ensures exists j ::
      && 0 <= j < |cs| && AllQualified(cs[..j])
      && Bind(table, cs[..j]).1.Pass? && Bind(table, cs).0 == Bind(table, cs[..j]).0
      && cs[j].qualifier.value in Bind(table, cs[..j]).0
    decreases |cs|
  {
    var init := cs[..|cs| - 1];
    assert AllQualified(init);
    if Bind(table, init).1.Fail? {
      BindFailKeepsPrefix(table, init);
      var j :| 0 <= j < |init| && AllQualified(init[..j]) &&
        Bind(table, init[..j]).1.Pass? && Bind(table, init).0 == Bind(table, init[..j]).0 &&
        init[j].qualifier.value in Bind(table, init[..j]).0;
      assert init[..j] == cs[..j] && init[j] == cs[j];
    } else {
      assert cs[..|cs| - 1] == init;
    }
  }

  /** Every binding the loop adds maps a value to a class of `cs` that
      declares that value. */
  lemma {:induction false} BindAddsDeclarers(table: map<string, ClassDesc>, cs: seq<ClassDesc>)
    requires AllQualified(cs)
    ensures forall k :: k in Bind(table, cs).0 && k !in table ==>
      Bind(table, cs).0[k] in cs && Bind(table, cs).0[k].qualifier == Some(k)
    decreases |cs|
  {
    if cs != [] {
      var init := cs[..|cs| - 1];
      assert AllQualified(init);
      BindAddsDeclarers(table, init);
      assert forall c :: c in init ==> c in cs;
    }
  }

  /** After a successful loop each qualifier value of `cs` is bound to the
      class that declared it, and nothing else was added. */
  lemma {:induction false} BindBindsDeclarers(table: map<string, ClassDesc>, cs: seq<ClassDesc>)
    requires AllQualified(cs)
    requires Bind(table, cs).1.Pass?
    ensures Bind(table, cs).0.Keys == table.Keys + Names(cs)
    ensures forall i :: 0 <= i < |cs| ==>
      cs[i].qualifier.value in Bind(table, cs).0 && Bind(table, cs).0[cs[i].qualifier.value] == cs[i]
    decreases |cs|
  {
    if cs != [] {
      var init := cs[..|cs| - 1];
      var last := cs[|cs| - 1];
      assert AllQualified(init);
      var (t, o) := Bind(table, init);
      assert o.Pass?;
      BindBindsDeclarers(table, init);
      var key := last.qualifier.value;
      assert key !in t;
      assert Bind(table, cs).0 == t[key := last];
      forall i | 0 <= i < |init|
        ensures cs[i].qualifier.value in t[key := last] && t[key := last][cs[i].qualifier.value] == cs[i]
      {
        assert cs[i] == init[i];
        assert init[i].qualifier.value in t && t[init[i].qualifier.value] == init[i];
      }
    }
  }

  /** A class of `cs` declares one of the values in `Names(cs)`. */
  lemma {:induction false} NamesOf(cs: seq<ClassDesc>)
    requires AllQualified(cs)
    ensures forall i :: 0 <= i < |cs| ==> cs[i].qualifier.value in Names(cs)
    ensures forall k :: k in Names(cs) ==> exists i :: 0 <= i < |cs| && cs[i].qualifier.value == k
    decreases |cs|
  {
    if cs != [] {
      var init := cs[..|cs| - 1];
      assert AllQualified(init);
      NamesOf(init);
      forall k | k in Names(cs) ensures exists i :: 0 <= i < |cs| && cs[i].qualifier.value == k {
        if k in Names(init) {
          var i :| 0 <= i < |init| && init[i].qualifier.value == k;
          assert cs[i] == init[i];
        } else {
          assert cs[|cs| - 1].qualifier.value == k;
        }
      }
      forall i | 0 <= i < |init| ensures cs[i].qualifier.value in Names(cs) {
        assert cs[i] == init[i];
      }
    }
  }

  /** No two classes of `qs` share a qualifier value, and none of their
      values is bound in `table` yet. */
  ghost predicate Unambiguous(table: map<string, ClassDesc>, qs: set<ClassDesc>)
  {
    && (forall c :: c in qs ==> c.qualifier.Some? && c.qualifier.value !in table)
    && (forall c1, c2 :: c1 in qs && c2 in qs && c1.qualifier == c2.qualifier ==> c1 == c2)
  }

  /** The elements of `cs` are pairwise distinct (an enumeration of a set). */
  predicate Distinct(cs: seq<ClassDesc>)
  {
    forall i, j :: 0 <= i < j < |cs| ==> cs[i] != cs[j]
  }

  /** Unambiguity is kept by every subset. */
  lemma UnambiguousSubset(table: map<string, ClassDesc>, small: set<ClassDesc>, big: set<ClassDesc>)
    requires small <= big && Unambiguous(table, big)
    ensures Unambiguous(table, small)
  {
  }

  /** Adding one class keeps unambiguity exactly when its value is free. */
  lemma UnambiguousAdd(table: map<string, ClassDesc>, s0: set<ClassDesc>, c: ClassDesc)
    requires c !in s0 && c.qualifier.Some? && Unambiguous(table, s0)
    ensures Unambiguous(table, s0 + {c}) <==>
      c.qualifier.value !in table && forall x :: x in s0 ==> x.qualifier != c.qualifier
  {
  }

  /** The step of `BindSucceedsIff` for a loop whose first part succeeded. */
  lemma BindLastVerdict(table: map<string, ClassDesc>, init: seq<ClassDesc>, last: ClassDesc)
    requires AllQualified(init) && last.qualifier.Some?
    requires last !in init
    requires Bind(table, init).1.Pass? && Unambiguous(table, set c | c in init)
    ensures BindOne(Bind(table, init).0, last).1.Pass? <==> Unambiguous(table, (set c | c in init) + {last})
  {
    var s0 := set c | c in init;
    BindBindsDeclarers(table, init);
    NamesOf(init);
    var key := last.qualifier.value;
    assert key in Names(init) <==> exists x :: x in s0 && x.qualifier == last.qualifier by {
      if key in Names(init) {
        var i :| 0 <= i < |init| && init[i].qualifier.value == key;
        assert init[i] in s0;
      }
      if exists x :: x in s0 && x.qualifier == last.qualifier {
        var x :| x in s0 && x.qualifier == last.qualifier;
        var i :| 0 <= i < |init| && init[i] == x;
      }
    }
    UnambiguousAdd(table, s0, last);
  }

  /** The loop succeeds exactly when the classes are unambiguous with respect
      to the table it starts from. The condition speaks of the set of
      classes only, so the verdict does not depend on the order in which the
      set is enumerated. */
  lemma {:induction false} BindSucceedsIff(table: map<string, ClassDesc>, cs: seq<ClassDesc>)
    requires AllQualified(cs) && Distinct(cs)
    ensures Bind(table, cs).1.Pass? <==> Unambiguous(table, set c | c in cs)
    decreases |cs|
  {
    if cs != [] {
      var last := cs[|cs| - 1];
      var init := cs[..|cs| - 1];
      assert AllQualified(init) && Distinct(init);
      BindSucceedsIff(table, init);
      var s0 := set c | c in init;
      var s1 := set c | c in cs;
      assert s1 == s0 + {last} by {
        assert cs == init + [last];
      }
      if Bind(table, init).1.Pass? {
        assert last !in init by {
          forall i | 0 <= i < |init| ensures init[i] != last {
            assert init[i] == cs[i];
          }
        }
        BindLastVerdict(table, init, last);
      } else {
        if Unambiguous(table, s1) {
          UnambiguousSubset(table, s0, s1);
        }
      }
    }
  }

  /** A successful loop over an enumeration `order` of the set `qs`: the
      set is unambiguous, each value is bound to its class, and the keys
      added are exactly the values of `qs`. */
  lemma BindAll(table: map<string, ClassDesc>, order: seq<ClassDesc>, qs: set<ClassDesc>)
    requires AllQualified(order) && Distinct(order) && (set x | x in order) == qs
    requires Bind(table, order).1.Pass?
    ensures Unambiguous(table, qs)
    ensures Bind(table, order).0.Keys == table.Keys + (set c | c in qs :: c.qualifier.value)
    ensures forall c :: c in qs ==> Bind(table, order).0[c.qualifier.value] == c
  {
    BindSucceedsIff(table, order);
    BindBindsDeclarers(table, order);
    forall c | c in qs ensures c.qualifier.value in Bind(table, order).0 && Bind(table, order).0[c.qualifier.value] == c {
      var i :| 0 <= i < |order| && order[i] == c;
    }
    NamesOf(order);
    assert Names(order) == (set c | c in qs :: c.qualifier.value) by {
      forall k | k in (set c | c in qs :: c.qualifier.value) ensures k in Names(order) {
        var c :| c in qs && c.qualifier.value == k;
        var i :| 0 <= i < |order| && order[i] == c;
      }
      forall k | k in Names(order) ensures k in (set c | c in qs :: c.qualifier.value) {
        var i :| 0 <= i < |order| && order[i].qualifier.value == k;
        assert order[i] in qs;
      }
    }
  }

  /** A loop that meets a bound value after visiting part of `qs` shows
      that `qs` is ambiguous. */
  lemma BindMeetsBound(table: map<string, ClassDesc>, order: seq<ClassDesc>, qs: set<ClassDesc>)
    requires AllQualified(order) && Distinct(order) && (set x | x in order) <= qs
    requires Bind(table, order).1.Fail?
    ensures !Unambiguous(table, qs)
  {
    BindSucceedsIff(table, order);
    if Unambiguous(table, qs) {
      UnambiguousSubset(table, (set x | x in order), qs);
    }
  }

  /** The qualifier table, as a field that `initQualifiers` updates in place. */
  class DependencyContainer {
    var table: map<string, ClassDesc>

    constructor ()
      ensures table == map[]
    {
      table := map[];
    }

    /** `initQualifiers`: enumerates `qs` in some order (HashSet order is
        unspecified) and binds each class under its qualifier value. The
        table persists across calls, so values bound by an earlier call
        count as taken. */
    method InitQualifiers(qs: set<ClassDesc>) returns (r: Outcome<StartupError>, ghost order: seq<ClassDesc>)
      requires forall c :: c in qs ==> c.qualifier.Some?
      modifies this
      ensures Distinct(order) && forall c :: c in order ==> c in qs
      ensures r.Pass? ==> forall c :: c in qs ==> c in order
      ensures AllQualified(order) && (table, r) == Bind(old(table), order)
      // a failure is met at the last class visited, and the bindings made
      // before it stay
      ensures r.Fail? ==>
        && |order| > 0 && AllQualified(order[..|order| - 1])
        && Bind(old(table), order[..|order| - 1]) == (table, Pass)
        && order[|order| - 1].qualifier.value in table
      ensures r.Pass? <==> Unambiguous(old(table), qs)
      ensures r.Pass? ==> table.Keys == old(table).Keys + (set c | c in qs :: c.qualifier.value)
      ensures r.Pass? ==> forall c :: c in qs ==> table[c.qualifier.value] == c
    {
      var rest := qs;
      order := [];
      r := Pass;
      while rest != {}
        invariant rest <= qs
        invariant forall c :: c in qs ==> (c in order <==> c !in rest)
        invariant forall c :: c in order ==> c in qs
        invariant Distinct(order) && AllQualified(order)
        invariant Bind(old(table), order) == (table, Pass)
        decreases rest
      {
        var c :| c in rest;
        var key := c.qualifier.value;
        ghost var before := order;
        order := order + [c];
        assert order[..|order| - 1] == before;
        if key in table {
          r := Fail(AmbiguousMapping);
          BindMeetsBound(old(table), order, qs);
          return;
        }
        table := table[key := c];
        rest := rest - {c};
      }
      assert (set x | x in order) == qs;
      BindAll(old(table), order, qs);
    }

    /** `getClassByQualifier`: the class bound to `q`, or `None` (Java's
        `null`) when nothing is bound; a lookup that changes nothing. */
    function ClassByQualifier(q: string): (r: Option<ClassDesc>)
      reads this
      ensures r.Some? <==> q in table
      ensures r.Some? ==> table[q] == r.value
    {
      if q in table then Some(table[q]) else None
    }
  }
}
