/**
 * `Substitution.compose(other)`: the bindings of `other` with the receiver
 * applied to their terms, then every binding of the receiver written over
 * them.
 */
module Composition {
  import opened Terms
  import opened Substitutions

  /** The keys of `s`, in order, that `m` does not bind: where a dict appends new keys. */
  function Missing(s: seq<string>, m: map<string, Term>): (r: seq<string>)
    ensures |r| <= |s|
    ensures forall x :: x in r <==> x in s && x !in m
  {
    if s == [] then []
    else
      var init, last := s[..|s| - 1], s[|s| - 1];
      assert s == init + [last];
      Missing(init, m) + (if last in m then [] else [last])
  }

  /** `Missing` depends only on the keys of the map. */
  lemma {:induction false} MissingSameKeys(s: seq<string>, m: map<string, Term>, n: map<string, Term>)
    requires m.Keys == n.Keys
    ensures Missing(s, m) == Missing(s, n)
  {
    if s != [] {
      MissingSameKeys(s[..|s| - 1], m, n);
    }
  }

  /** Without duplicates in `s` there are none in `Missing(s, m)`. */
  lemma {:induction false} MissingDistinct(s: seq<string>, m: map<string, Term>)
    requires forall i, j | 0 <= i < j < |s| :: s[i] != s[j]
    ensures forall i, j | 0 <= i < j < |Missing(s, m)| :: Missing(s, m)[i] != Missing(s, m)[j]
  {
    if s != [] {
      var init := s[..|s| - 1];
      assert forall i, j | 0 <= i < j < |init| :: init[i] != init[j];
      MissingDistinct(init, m);
      assert s[|s| - 1] !in init;
    }
  }

  /** The order of the dict that `compose` builds: `other`'s keys, then the receiver's new ones. */
  function ComposedOrder(a: Subst, b: Subst): (r: seq<string>)
    requires Valid(a) && Valid(b)
    ensures forall i, j | 0 <= i < j < |r| :: r[i] != r[j]
    ensures forall v :: v in r <==> Contains(a, v) || Contains(b, v)
  {
    var m := Missing(a.order, b.bindings);
    MissingDistinct(a.order, b.bindings);
    forall i, j | 0 <= i < j < |b.order + m| ensures (b.order + m)[i] != (b.order + m)[j] {
      if i < |b.order| <= j {
        assert (b.order + m)[j] in m;
      }
    }
    b.order + m
  }

  /**
   * `a.compose(b)` as written, the dict after the whole loop: its domain is
   * the union of both domains, a key bound in `a` keeps `a`'s term, and a
   * key bound only in `b` maps to `a` applied to `b`'s term.
   */
  function Composed(a: Subst, b: Subst): (r: Subst)
    requires Valid(a) && Acyclic(a) && Valid(b)
    ensures Valid(r) && r.order == ComposedOrder(a, b)
    ensures forall v :: Contains(r, v) <==> Contains(a, v) || Contains(b, v)
    ensures forall v | Contains(a, v) :: r.bindings[v] == a.bindings[v]
    ensures forall v | Contains(b, v) && !Contains(a, v) :: r.bindings[v] == Apply(a, b.bindings[v])
  {
    var seeded := Seeded(a, b);
    assert a.order[..|a.order|] == a.order;
    WrittenOrder(a, seeded, |a.order|);
    WrittenKeys(a, seeded, |a.order|);
    WrittenBindings(a, seeded, |a.order|);
    MissingSameKeys(a.order, seeded.bindings, b.bindings);
    var r := Written(a, seeded, |a.order|);
    assert r.order == ComposedOrder(a, b);
    r
  }

  /** The dictionary before the loop: `b`'s keys in `b`'s order, each term with `a` applied. */
  function Seeded(a: Subst, b: Subst): (r: Subst)
    requires Valid(a) && Acyclic(a) && Valid(b)
    ensures r.order == b.order
    ensures forall v :: v in r.bindings <==> Contains(b, v)
    ensures forall v | Contains(b, v) :: r.bindings[v] == Apply(a, b.bindings[v])
  {
    Subst(b.order, map v | v in b.bindings :: Apply(a, b.bindings[v]))
  }

  /** A dict assignment `d[v] = t`: a new key goes to the end, an existing key keeps its place. */
  function Turn(p: Subst, v: string, t: Term): Subst {
    Subst(if v in p.bindings then p.order else p.order + [v], p.bindings[v := t])
  }

  /** The dict `p` after the first `i` turns of the loop that writes each binding of `a` into it. */
  function Written(a: Subst, p: Subst, i: nat): Subst
    requires Valid(a) && i <= |a.order|
  {
    if i == 0 then p
    else
      var v := a.order[i - 1];
      Turn(Written(a, p, i - 1), v, a.bindings[v])
  }

  /** The order after `i` turns: `p`'s keys, then the new keys among the first `i` of `a`. */
  lemma {:induction false} WrittenOrder(a: Subst, p: Subst, i: nat)
    requires Valid(a) && i <= |a.order|
    ensures Written(a, p, i).order == p.order + Missing(a.order[..i], p.bindings)
  {
    if i > 0 {
      WrittenOrder(a, p, i - 1);
      WrittenKeys(a, p, i - 1);
      var v := a.order[i - 1];
      FreshKey(a, i);
      PrefixSnoc(a.order, i);
      MissingSnoc(a.order[..i - 1], v, p.bindings);
      var q := Written(a, p, i - 1);
      assert Written(a, p, i) == Turn(q, v, a.bindings[v]);
      assert v in q.bindings <==> v in p.bindings;
      AppendAssociates(p.order, Missing(a.order[..i - 1], p.bindings), if v in p.bindings then [] else [v]);
    }
  }

  /** The key of turn `i` was not written by an earlier turn. */
  lemma FreshKey(a: Subst, i: nat)
    requires Valid(a) && 0 < i <= |a.order|
    ensures a.order[i - 1] !in a.order[..i - 1]
  {
  }

  /** A prefix one longer is the shorter prefix and one more element. */
  lemma PrefixSnoc(s: seq<string>, i: nat)
    requires 0 < i <= |s|
    ensures s[..i] == s[..i - 1] + [s[i - 1]]
  {
  }

  /** Concatenation regroups. */
  lemma AppendAssociates(x: seq<string>, y: seq<string>, z: seq<string>)
    ensures x + y + z == x + (y + z)
  {
  }

  /** Appending one key to the scanned sequence appends it to `Missing` when the map lacks it. */
  lemma MissingSnoc(s: seq<string>, x: string, m: map<string, Term>)
    ensures Missing(s + [x], m) == Missing(s, m) + (if x in m then [] else [x])
  {
    assert (s + [x])[..|s|] == s;
  }

  /** The keys after `i` turns: those of `p` and the first `i` of `a`. */
  lemma {:induction false} WrittenKeys(a: Subst, p: Subst, i: nat)
    requires Valid(a) && i <= |a.order|
    ensures forall v :: v in Written(a, p, i).bindings <==> v in p.bindings || v in a.order[..i]
  {
    if i > 0 {
      WrittenKeys(a, p, i - 1);
      PrefixSnoc(a.order, i);
    }
  }

  /** The bindings after `i` turns: `a`'s terms for the keys written so far, `p`'s terms for the rest. */
  lemma {:induction false} WrittenBindings(a: Subst, p: Subst, i: nat)
    requires Valid(a) && i <= |a.order|
    ensures forall v | v in a.order[..i] :: v in Written(a, p, i).bindings && Written(a, p, i).bindings[v] == a.bindings[v]
    ensures forall v | v in p.bindings && v !in a.order[..i] ::
              v in Written(a, p, i).bindings && Written(a, p, i).bindings[v] == p.bindings[v]
  {
    if i > 0 {
      WrittenBindings(a, p, i - 1);
      PrefixSnoc(a.order, i);
    }
  }

  /**
   * `compose` as the Python method runs it: the comprehension over `other`,
   * then the loop that writes each binding of the receiver into the new
   * dict, appending the keys it does not have yet.
   */
  method Compose(a: Subst, b: Subst) returns (r: Subst)
    requires Valid(a) && Acyclic(a) && Valid(b)
    ensures r == Composed(a, b)
  {
    var seeded := Seeded(a, b);
    var order, bindings := seeded.order, seeded.bindings;
    var i := 0;
    while i < |a.order|
      invariant 0 <= i <= |a.order|
      invariant Subst(order, bindings) == Written(a, seeded, i)
    {
      var v := a.order[i];
      WrittenNext(a, seeded, i);
      order := if v in bindings then order else order + [v];
      bindings := bindings[v := a.bindings[v]];
      i := i + 1;
    }
    ComposedIsWritten(a, b);
    r := Subst(order, bindings);
  }

  /** One more turn of the loop is one more dict assignment. */
  lemma WrittenNext(a: Subst, p: Subst, i: nat)
    requires Valid(a) && i < |a.order|
    ensures Written(a, p, i + 1) == Turn(Written(a, p, i), a.order[i], a.bindings[a.order[i]])
  {
  }

  /** The composition is the seeded dict after every turn. */
  lemma ComposedIsWritten(a: Subst, b: Subst)
    requires Valid(a) && Acyclic(a) && Valid(b)
    ensures Composed(a, b) == Written(a, Seeded(a, b), |a.order|)
  {
  }

  /**
   * The composition `compose`'s docstring describes ("apply other, then
   * self"): on a key bound in both, `b`'s term with `a` applied wins.
   */
  function ComposedAsIntended(a: Subst, b: Subst): (r: Subst)
    requires Valid(a) && Acyclic(a) && Valid(b)
    ensures Valid(r) && r.order == ComposedOrder(a, b)
    ensures forall v :: Contains(r, v) <==> Contains(a, v) || Contains(b, v)
    ensures forall v | Contains(b, v) :: r.bindings[v] == Apply(a, b.bindings[v])
    ensures forall v | Contains(a, v) && !Contains(b, v) :: r.bindings[v] == a.bindings[v]
  {
    Subst(ComposedOrder(a, b),
          map v | v in a.bindings.Keys + b.bindings.Keys ::
            if v in b.bindings then Apply(a, b.bindings[v]) else a.bindings[v])
  }

  /** The two agree when no key is bound in both. */
  lemma ComposedAgreesOnDisjointDomains(a: Subst, b: Subst)
    requires Valid(a) && Acyclic(a) && Valid(b)
    requires forall v | Contains(a, v) :: !Contains(b, v)
    ensures Composed(a, b) == ComposedAsIntended(a, b)
  {
    var c, d := Composed(a, b), ComposedAsIntended(a, b);
    forall v | v in c.bindings ensures v in d.bindings && c.bindings[v] == d.bindings[v] {
      if Contains(a, v) {
        assert c.bindings[v] == a.bindings[v] == d.bindings[v];
      }
    }
    SameSubst(c, d);
  }

  /** Two substitutions with the same order, the same keys and the same terms are equal. */
  lemma SameSubst(c: Subst, d: Subst)
    requires c.order == d.order && forall v :: v in c.bindings <==> v in d.bindings
    requires forall v | v in c.bindings :: c.bindings[v] == d.bindings[v]
    ensures c == d
  {
    assert c.bindings == d.bindings;
  }

  /** No key occurs in any bound term: applying the substitution is a single replacement. */
  ghost predicate Idempotent(s: Subst) {
    && Valid(s)
    && forall v, w | v in s.bindings && w in s.bindings :: w !in Vars(s.bindings[v])
  }

  /** The terms `a` binds mention no key of `b`. */
  ghost predicate RangeAvoids(a: Subst, b: Subst) {
    forall v, w | v in a.bindings && w in b.bindings :: w !in Vars(a.bindings[v])
  }

  /** The variables of the terms a substitution binds. */
  ghost function RangeVars(s: Subst): set<string> {
    set v, x | v in s.bindings && x in Vars(s.bindings[v]) :: x
  }

  lemma IdempotentIsAcyclic(s: Subst)
    requires Idempotent(s)
    ensures Acyclic(s)
  {
    forall i, j | 0 <= j <= i < |s.order| ensures s.order[j] !in Vars(s.bindings[s.order[i]]) {
      assert s.order[i] in s.bindings && s.order[j] in s.bindings;
    }
  }

  /** With an idempotent substitution a bound variable becomes its term, at once. */
  lemma IdempotentApplyVar(s: Subst, v: string)
    requires Idempotent(s)
    ensures Acyclic(s)
    ensures Contains(s, v) ==> Apply(s, Var(v)) == s.bindings[v]
  {
    IdempotentIsAcyclic(s);
    ApplyVar(s, v);
    if Contains(s, v) {
      ApplyResolvedIsIdentity(s, s.bindings[v]);
    }
  }

  /** `a` applied to a term of `b` mentions no key of either. */
  lemma AppliedTermAvoidsKeys(a: Subst, b: Subst, t: Term)
    requires Idempotent(a) && Idempotent(b) && RangeAvoids(a, b)
    requires forall w | w in b.bindings :: w !in Vars(t)
    ensures Acyclic(a)
    ensures forall w | w in a.bindings || w in b.bindings :: w !in Vars(Apply(a, t))
  {
    IdempotentIsAcyclic(a);
    var within := Vars(t) + RangeVars(a);
    forall v | v in a.bindings && v in within ensures Vars(a.bindings[v]) <= within {
    }
    ApplyStaysWithin(a, t, within);
    ApplyResolves(a, t);
  }

  /** Under the conditions of the law below, the intended composition is idempotent too. */
  lemma ComposedAsIntendedIdempotent(a: Subst, b: Subst)
    requires Idempotent(a) && Idempotent(b) && RangeAvoids(a, b)
    ensures Acyclic(a) && Idempotent(ComposedAsIntended(a, b))
  {
    IdempotentIsAcyclic(a);
    var c := ComposedAsIntended(a, b);
    forall v, w | v in c.bindings && w in c.bindings ensures w !in Vars(c.bindings[v]) {
      if v in b.bindings {
        AppliedTermAvoidsKeys(a, b, b.bindings[v]);
      }
    }
  }

  /**
   * The composition law for the intended composition: applying it is
   * applying `b`, then `a`, when both are idempotent and `a`'s terms avoid
   * `b`'s keys.
   */
  lemma {:induction false} ComposedAsIntendedLaw(a: Subst, b: Subst, t: Term)
    requires Idempotent(a) && Idempotent(b) && RangeAvoids(a, b)
    ensures Acyclic(a) && Acyclic(b) && Acyclic(ComposedAsIntended(a, b))
    ensures Apply(ComposedAsIntended(a, b), t) == Apply(a, Apply(b, t))
  {
    IdempotentIsAcyclic(a);
    IdempotentIsAcyclic(b);
    ComposedAsIntendedIdempotent(a, b);
    var c := ComposedAsIntended(a, b);
    IdempotentIsAcyclic(c);
    match t
    case Var(v) =>
      IdempotentApplyVar(c, v);
      IdempotentApplyVar(b, v);
      IdempotentApplyVar(a, v);
    case Const(_) =>
    case Fn(f, args) =>
      ApplyFn(c, f, args);
      ApplyFn(b, f, args);
      ApplyFn(a, f, Apply(b, t).args);
      forall k | 0 <= k < |args| ensures Apply(c, args[k]) == Apply(a, Apply(b, args[k])) {
        ComposedAsIntendedLaw(a, b, args[k]);
      }
      assert Apply(c, t).args == Apply(a, Apply(b, t)).args;
  }

  /**
   * As written, the law fails as soon as a key is bound in both: with
   * `a = {x: A}` and `b = {x: B}`, the composite sends `x` to `A` while
   * applying `b` and then `a` gives `B`; the intended composition gives `B`.
   */
  lemma ComposedBreaksLaw()
    ensures var a, b := Subst(["x"], map["x" := Const("A")]), Subst(["x"], map["x" := Const("B")]);
            && Idempotent(a) && Idempotent(b) && RangeAvoids(a, b)
            && Acyclic(a) && Acyclic(b) && Acyclic(Composed(a, b)) && Acyclic(ComposedAsIntended(a, b))
            && Apply(Composed(a, b), Var("x")) == Const("A")
            && Apply(a, Apply(b, Var("x"))) == Const("B")
            && Apply(ComposedAsIntended(a, b), Var("x")) == Const("B")
  {
    var a, b := Subst(["x"], map["x" := Const("A")]), Subst(["x"], map["x" := Const("B")]);
    assert Idempotent(a) && Idempotent(b);
    IdempotentApplyVar(a, "x");
    IdempotentApplyVar(b, "x");
    ApplyConst(a, "B");
    SingletonsComposed(a, b);
    SingletonsComposedAsIntended(a, b);
  }

  /** Composed as written, two bindings of the same key give back the receiver. */
  lemma SingletonsComposed(a: Subst, b: Subst)
    requires a == Subst(["x"], map["x" := Const("A")]) && b == Subst(["x"], map["x" := Const("B")])
    requires Valid(a) && Acyclic(a) && Valid(b)
    ensures Composed(a, b) == a
  {
    assert Missing(["x"], b.bindings) == [];
    var c := Composed(a, b);
    assert c.order == ComposedOrder(a, b) == ["x"];
    assert forall v :: v in c.bindings <==> v == "x";
    assert c.bindings["x"] == Const("A");
    assert c.bindings == a.bindings;
  }

  /** Composed as intended, two bindings of the same key give back the argument. */
  lemma SingletonsComposedAsIntended(a: Subst, b: Subst)
    requires a == Subst(["x"], map["x" := Const("A")]) && b == Subst(["x"], map["x" := Const("B")])
    requires Valid(a) && Acyclic(a) && Valid(b)
    ensures ComposedAsIntended(a, b) == b
  {
    assert Missing(["x"], b.bindings) == [];
    var c := ComposedAsIntended(a, b);
    assert c.order == ["x"];
    assert c.bindings.Keys == {"x"};
    ApplyConst(a, "B");
    assert c.bindings == b.bindings;
  }

  /**
   * Composing `{x: y}` with `{y: x}` binds `y` to itself; dereferencing `y`
   * in the result then never ends.
   */
  lemma ComposedMaySelfBind(a: Subst, b: Subst)
    requires a == Subst(["x"], map["x" := Var("y")]) && b == Subst(["y"], map["y" := Var("x")])
    requires Valid(a) && Acyclic(a) && Valid(b)
    ensures Contains(Composed(a, b), "y") && Composed(a, b).bindings["y"] == Var("y")
  {
    ApplyVar(a, "x");
    ApplyVar(a, "y");
  }

  /**
   * Composing `{x: y}` with `{y: B}` terminates when dereferenced, but puts
   * `y` before `x`, whose term mentions `y`: the result is not in the
   * insertion order the unifier keeps.
   */
  lemma ComposedMayBeCyclic(a: Subst, b: Subst)
    requires a == Subst(["x"], map["x" := Var("y")]) && b == Subst(["y"], map["y" := Const("B")])
    requires Valid(a) && Acyclic(a) && Valid(b)
    ensures !Acyclic(Composed(a, b))
  {
    assert "y" in Vars(a.bindings["x"]);
    ComposedBreaksOrder(a, b, "x", "y");
  }

  /**
   * `compose` writes the argument's keys first, so a key only the receiver
   * binds, whose term mentions a key of the argument, comes after that key
   * and breaks the insertion order.
   */
  lemma ComposedBreaksOrder(a: Subst, b: Subst, x: string, y: string)
    requires Valid(a) && Acyclic(a) && Valid(b)
    requires Contains(a, x) && !Contains(b, x) && Contains(b, y) && y in Vars(a.bindings[x])
    ensures !Acyclic(Composed(a, b))
  {
    var m := Missing(a.order, b.bindings);
    var c := Composed(a, b);
    assert c.order == b.order + m;
    assert c.bindings[x] == a.bindings[x];
    LaterMentionsFront(c, b.order, m, x, y);
  }

  /** Insertion order breaks when a key of the back part mentions one of the front part. */
  lemma LaterMentionsFront(s: Subst, front: seq<string>, back: seq<string>, x: string, y: string)
    requires Valid(s) && s.order == front + back && y in front && x in back && y in Vars(s.bindings[x])
    ensures !Acyclic(s)
  {
    var j :| 0 <= j < |front| && front[j] == y;
    var k :| 0 <= k < |back| && back[k] == x;
    assert s.order[j] == y && s.order[|front| + k] == x;
    LaterMentionsEarlier(s, |front| + k, j);
  }

  /** A single key that the map lacks is missing from it. */
  lemma MissingSingle(x: string, m: map<string, Term>)
    requires x !in m
    ensures Missing([x], m) == [x]
  {
    assert [x][..0] == [];
  }

  /** A binding whose term mentions a key inserted at or before it breaks acyclicity. */
  lemma LaterMentionsEarlier(s: Subst, i: nat, j: nat)
    requires Valid(s) && j <= i < |s.order| && s.order[j] in Vars(s.bindings[s.order[i]])
    ensures !Acyclic(s)
  {
  }
}
