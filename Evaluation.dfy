/**
 * What the comparator's engines compute, stated over snapshots of the rules
 * (RuleView values): the difference report of CompareWith, the one-off
 * comparison, the existence conjunction and its two Exists engines.
 */
module Evaluation {
  import opened Wrappers
  import opened Errors
  import opened Extensions
  import opened PropertyRules
  import opened Results

  /** No two rules share a member name. */
  ghost predicate UniqueNames<T, V>(vs: seq<RuleView<T, V>>)
  {
    forall i, j :: 0 <= i < j < |vs| ==> vs[i].member.name != vs[j].member.name
  }

  /** Rule `v` records a difference between `a` and `b`: it is not ignored and its predicate evaluates to false. */
  predicate Differs<T, V(==)>(v: RuleView<T, V>, a: T, b: T)
  {
    !v.isIgnored && Eval(v.compare, v.prop, a, Subject(b), v.member.name) == Success(false)
  }

  /** The message stored for a differing rule: null when suppressed, else the resolved message of the first subject. */
  function MessageFor<T, V>(v: RuleView<T, V>, a: T): (r: Result<Msg, Error>)
    ensures v.withoutMessage ==> r == Success(None)
    ensures !v.withoutMessage ==> r == ResolveMessage(v.provider, a, v.member.name)
  {
    if v.withoutMessage then Success(None) else ResolveMessage(v.provider, a, v.member.name)
  }

  /**
   * Recording one difference: a bag of the two labelled values under the
   * member's name, then the message under the member.  Each insertion throws
   * on a key that is already present.
   */
  function Record<V>(acc: Report<V>, member: MemberInfo, la: string, lb: string, va: V, vb: V, message: Result<Msg, Error>)
    : (r: Result<Report<V>, Error>)
    ensures r.Success? <==> la != lb && member.name !in acc.data && message.Success? && member !in acc.messages
    ensures r.Success? ==> r.value == Report(true, acc.messages[member := message.value], acc.data[member.name := map[la := va, lb := vb]])
    ensures la == lb ==> r == Failure(DuplicateKey(lb))
  {
    var pd := map[la := va];  // the first insertion into a fresh bag cannot clash
    var pd' :- ExpandoAdd(pd, lb, vb);
    var d :- ExpandoAdd(acc.data, member.name, pd');
    var msg :- message;
    var e :- DictAdd(acc.messages, member, msg);
    assert pd' == map[la := va, lb := vb];
    Success(Report(true, e, d))
  }

  /** The body of CompareWith's loop for one rule. */
  function RuleStep<T, V(==)>(v: RuleView<T, V>, la: string, lb: string, a: T, b: T, acc: Report<V>): Result<Report<V>, Error>
  {
    if v.isIgnored then Success(acc)
    else
      var same :- Eval(v.compare, v.prop, a, Subject(b), v.member.name);
      if same then Success(acc)
      else Record(acc, v.member, la, lb, v.prop(a), v.prop(b), MessageFor(v, a))
  }

  /** The rules from `vs` on, applied in registration order to the report built so far. */
  function CompareFrom<T, V(==)>(vs: seq<RuleView<T, V>>, la: string, lb: string, a: T, b: T, acc: Report<V>)
    : Result<Report<V>, Error>
    decreases |vs|
  {
    if vs == [] then Success(acc)
    else
      var r :- RuleStep(vs[0], la, lb, a, b, acc);
      CompareFrom(vs[1..], la, lb, a, b, r)
  }

  /** CompareWith(a, b): the report of all rules, starting from an empty result. */
  function CompareSpec<T, V(==)>(vs: seq<RuleView<T, V>>, la: string, lb: string, a: T, b: T): Result<Report<V>, Error>
  {
    CompareFrom(vs, la, lb, a, b, EmptyReport())
  }

  /** What one rule does to the report: a differing rule adds its name, its member and both labelled values; any other rule changes nothing. */
  lemma RuleStepEffect<T, V>(v: RuleView<T, V>, la: string, lb: string, a: T, b: T, acc: Report<V>)
    requires RuleStep(v, la, lb, a, b, acc).Success?
    ensures !Differs(v, a, b) ==> RuleStep(v, la, lb, a, b, acc).value == acc
    ensures Differs(v, a, b) ==>
              && la != lb && MessageFor(v, a).Success?
              && v.member.name !in acc.data && v.member !in acc.messages
              && RuleStep(v, la, lb, a, b, acc).value
                 == Report(true, acc.messages[v.member := MessageFor(v, a).value], acc.data[v.member.name := map[la := v.prop(a), lb := v.prop(b)]])
  {
  }

  /** A successful run is different exactly when the report was already, or some rule of the run differs. */
  lemma {:induction false} CompareFromFlag<T, V>(vs: seq<RuleView<T, V>>, la: string, lb: string, a: T, b: T, acc: Report<V>, r: Report<V>)
    requires CompareFrom(vs, la, lb, a, b, acc) == Success(r)
    ensures r.isDifferent <==> acc.isDifferent || exists i :: 0 <= i < |vs| && Differs(vs[i], a, b)
    decreases |vs|
  {
    if vs != [] {
      var r1 := RuleStep(vs[0], la, lb, a, b, acc).value;
      RuleStepEffect(vs[0], la, lb, a, b, acc);
      CompareFromFlag(vs[1..], la, lb, a, b, r1, r);
      assert forall i :: 1 <= i < |vs| ==> vs[i] == vs[1..][i - 1];
      if exists i :: 0 <= i < |vs| && Differs(vs[i], a, b) {
        var i :| 0 <= i < |vs| && Differs(vs[i], a, b);
        if i > 0 {
          assert Differs(vs[1..][i - 1], a, b);
        }
      }
    }
  }

  /** A successful run adds to the keys exactly the names and the members of the rules that differ. */
  lemma {:induction false} CompareFromKeys<T, V>(vs: seq<RuleView<T, V>>, la: string, lb: string, a: T, b: T, acc: Report<V>, r: Report<V>)
    requires CompareFrom(vs, la, lb, a, b, acc) == Success(r)
    ensures forall k :: k in r.data <==> k in acc.data || exists i :: 0 <= i < |vs| && Differs(vs[i], a, b) && vs[i].member.name == k
    ensures forall m :: m in r.messages <==> m in acc.messages || exists i :: 0 <= i < |vs| && Differs(vs[i], a, b) && vs[i].member == m
    decreases |vs|
  {
    if vs != [] {
      var r1 := RuleStep(vs[0], la, lb, a, b, acc).value;
      RuleStepEffect(vs[0], la, lb, a, b, acc);
      CompareFromKeys(vs[1..], la, lb, a, b, r1, r);
      assert forall i :: 1 <= i < |vs| ==> vs[i] == vs[1..][i - 1];
      forall k | k in r.data
        ensures k in acc.data || exists i :: 0 <= i < |vs| && Differs(vs[i], a, b) && vs[i].member.name == k
      {
        if k !in r1.data {
          var i :| 0 <= i < |vs[1..]| && Differs(vs[1..][i], a, b) && vs[1..][i].member.name == k;
          assert Differs(vs[i + 1], a, b) && vs[i + 1].member.name == k;
        }
      }
      forall m | m in r.messages
        ensures m in acc.messages || exists i :: 0 <= i < |vs| && Differs(vs[i], a, b) && vs[i].member == m
      {
        if m !in r1.messages {
          var i :| 0 <= i < |vs[1..]| && Differs(vs[1..][i], a, b) && vs[1..][i].member == m;
          assert Differs(vs[i + 1], a, b) && vs[i + 1].member == m;
        }
      }
      forall i | 0 < i < |vs| && Differs(vs[i], a, b)
        ensures vs[i].member.name in r.data && vs[i].member in r.messages
      {
        assert Differs(vs[1..][i - 1], a, b);
      }
    }
  }

  /** What a successful run adds to the report built so far: exactly one entry per differing rule. */
  lemma {:induction false} CompareFromSound<T, V>(vs: seq<RuleView<T, V>>, la: string, lb: string, a: T, b: T, acc: Report<V>, r: Report<V>)
    requires CompareFrom(vs, la, lb, a, b, acc) == Success(r)
    ensures forall k :: k in acc.data ==> k in r.data && r.data[k] == acc.data[k]
    ensures forall m :: m in acc.messages ==> m in r.messages && r.messages[m] == acc.messages[m]
    ensures forall i :: 0 <= i < |vs| && Differs(vs[i], a, b) ==>
              && la != lb
              && vs[i].member.name in r.data && r.data[vs[i].member.name] == map[la := vs[i].prop(a), lb := vs[i].prop(b)]
              && MessageFor(vs[i], a).Success?
              && vs[i].member in r.messages && r.messages[vs[i].member] == MessageFor(vs[i], a).value
    decreases |vs|
  {
    if vs != [] {
      var v := vs[0];
      var r1 := RuleStep(v, la, lb, a, b, acc).value;
      RuleStepEffect(v, la, lb, a, b, acc);
      CompareFromSound(vs[1..], la, lb, a, b, r1, r);
      forall i | 0 < i < |vs| && Differs(vs[i], a, b)
        ensures && la != lb
                && vs[i].member.name in r.data && r.data[vs[i].member.name] == map[la := vs[i].prop(a), lb := vs[i].prop(b)]
                && MessageFor(vs[i], a).Success?
                && vs[i].member in r.messages && r.messages[vs[i].member] == MessageFor(vs[i], a).value
      {
        assert vs[i] == vs[1..][i - 1];
      }
    }
  }

  /**
   * CompareWith's report: different exactly when some non-ignored rule's
   * predicate is false; data and messages hold exactly those rules, keyed by
   * name and by member, with both labelled values and the rule's message.
   */
  lemma CompareReport<T, V>(vs: seq<RuleView<T, V>>, la: string, lb: string, a: T, b: T, r: Report<V>)
    requires CompareSpec(vs, la, lb, a, b) == Success(r)
    ensures r.isDifferent <==> exists i :: 0 <= i < |vs| && Differs(vs[i], a, b)
    ensures forall k :: k in r.data <==> exists i :: 0 <= i < |vs| && Differs(vs[i], a, b) && vs[i].member.name == k
    ensures forall m :: m in r.messages <==> exists i :: 0 <= i < |vs| && Differs(vs[i], a, b) && vs[i].member == m
    ensures forall i :: 0 <= i < |vs| && Differs(vs[i], a, b) ==>
              && r.data[vs[i].member.name] == map[la := vs[i].prop(a), lb := vs[i].prop(b)]
              && (!vs[i].withoutMessage ==> vs[i].provider.Some?)
              && r.messages[vs[i].member] == (if vs[i].withoutMessage then None else vs[i].provider.value(a))
    ensures la == lb ==> !r.isDifferent
  {
    var empty: Report<V> := EmptyReport();
    CompareFromFlag(vs, la, lb, a, b, empty, r);
    CompareFromKeys(vs, la, lb, a, b, empty, r);
    CompareFromSound(vs, la, lb, a, b, empty, r);
    assert empty.data == map[] && empty.messages == map[] && !empty.isDifferent;
    forall i | 0 <= i < |vs| && Differs(vs[i], a, b)
      ensures (!vs[i].withoutMessage ==> vs[i].provider.Some?)
      ensures r.messages[vs[i].member] == (if vs[i].withoutMessage then None else vs[i].provider.value(a))
    {
      var msg := MessageFor(vs[i], a);
      assert msg.Success? && r.messages[vs[i].member] == msg.value;
    }
  }

  /**
   * A non-ignored rule whose predicate cannot be invoked on the second subject
   * (never set, or a literal comparison whose cast rejects it) makes the whole
   * comparison throw.
   */
  lemma {:induction false} EvalErrorAborts<T, V>(vs: seq<RuleView<T, V>>, la: string, lb: string, a: T, b: T, acc: Report<V>, i: nat)
    requires i < |vs| && !vs[i].isIgnored && !EvaluatesOn(vs[i].compare, b)
    ensures CompareFrom(vs, la, lb, a, b, acc).Failure?
    decreases |vs|
  {
    if i > 0 {
      var s := RuleStep(vs[0], la, lb, a, b, acc);
      if s.Success? {
        assert vs[1..][i - 1] == vs[i];
        EvalErrorAborts(vs[1..], la, lb, a, b, s.value, i - 1);
      }
    }
  }

  /** A rule that is configured for CompareWith on the second subject `b`: ignored, or holding a predicate that can be invoked on `b` and a message function or suppression. */
  predicate Configured<T, V>(v: RuleView<T, V>, b: T)
  {
    v.isIgnored || (EvaluatesOn(v.compare, b) && (v.withoutMessage || v.provider.Some?))
  }

  /** With distinct labels, distinct names and configured rules, CompareWith does not throw. */
  lemma {:induction false} CompareFromSucceeds<T, V>(vs: seq<RuleView<T, V>>, la: string, lb: string, a: T, b: T, acc: Report<V>)
    requires la != lb && UniqueNames(vs)
    requires forall i :: 0 <= i < |vs| ==> Configured(vs[i], b)
    requires forall i :: 0 <= i < |vs| ==> vs[i].member.name !in acc.data && vs[i].member !in acc.messages
    ensures CompareFrom(vs, la, lb, a, b, acc).Success?
    decreases |vs|
  {
    if vs != [] {
      var v := vs[0];
      var s := RuleStep(v, la, lb, a, b, acc);
      assert s.Success?;
      assert forall i :: 1 <= i < |vs| ==> vs[1..][i - 1] == vs[i];
      forall i | 0 <= i < |vs[1..]|
        ensures vs[1..][i].member.name !in s.value.data && vs[1..][i].member !in s.value.messages
      {
        assert vs[1..][i] == vs[i + 1];
      }
      CompareFromSucceeds(vs[1..], la, lb, a, b, s.value);
    }
  }

  /** The one-off comparison: a fresh rule for `body`, compared against `value`, reporting the caller's message. */
  function OneOffSpec<T, V(==)>(body: Expr, prop: T -> V, la: string, lb: string, a: T, value: V, message: Msg)
    : Result<Report<V>, Error>
  {
    var m :- ResolveProperty(body);
    if prop(a) == value then Success(EmptyReport())
    else Record(EmptyReport(), m, la, lb, prop(a), value, Success(message))
  }

  /** The one-off report differs exactly when the property differs from the value, and then holds the value under the second label and the given message. */
  lemma OneOffReport<T, V>(body: Expr, prop: T -> V, la: string, lb: string, a: T, value: V, message: Msg, m: MemberInfo)
    requires ResolveProperty(body) == Success(m)
    ensures OneOffSpec(body, prop, la, lb, a, value, message).Success? <==> la != lb || prop(a) == value
    ensures prop(a) == value ==> OneOffSpec(body, prop, la, lb, a, value, message) == Success(EmptyReport())
    ensures prop(a) != value && la != lb ==>
              OneOffSpec(body, prop, la, lb, a, value, message)
              == Success(Report(true, map[m := message], map[m.name := map[la := prop(a), lb := value]]))
  {
  }

  /** Rules.All(rule => !rule.IsIgnored && rule.Compare(a, b)), evaluated left to right with short circuit. */
  function AllMatch<T, V(==)>(vs: seq<RuleView<T, V>>, a: T, b: T): Result<bool, Error>
    decreases |vs|
  {
    if vs == [] then Success(true)
    else if vs[0].isIgnored then Success(false)
    else
      var holds :- Eval(vs[0].compare, vs[0].prop, a, Subject(b), vs[0].member.name);
      if !holds then Success(false) else AllMatch(vs[1..], a, b)
  }

  /** The conjunction holds exactly when every rule is not ignored and its predicate holds. */
  lemma {:induction false} AllMatchTrueIff<T, V>(vs: seq<RuleView<T, V>>, a: T, b: T)
    ensures AllMatch(vs, a, b) == Success(true)
        <==> forall i :: 0 <= i < |vs| ==> !vs[i].isIgnored && Eval(vs[i].compare, vs[i].prop, a, Subject(b), vs[i].member.name) == Success(true)
    decreases |vs|
  {
    if vs != [] {
      AllMatchTrueIff(vs[1..], a, b);
      assert forall i :: 1 <= i < |vs| ==> vs[1..][i - 1] == vs[i];
    }
  }

  /** The conjunction cannot throw when every rule it might reach holds a predicate that can be invoked on `b`. */
  lemma {:induction false} AllMatchTotal<T, V>(vs: seq<RuleView<T, V>>, a: T, b: T)
    requires forall i :: 0 <= i < |vs| ==> vs[i].isIgnored || EvaluatesOn(vs[i].compare, b)
    ensures AllMatch(vs, a, b).Success?
    decreases |vs|
  {
    if vs != [] && !vs[0].isIgnored {
      assert forall i :: 1 <= i < |vs| ==> vs[1..][i - 1] == vs[i];
      AllMatchTotal(vs[1..], a, b);
    }
  }

  /** Exists(a, bs): scan the candidates in order and stop at the first one satisfying the conjunction. */
  function FirstMatch<T, V(==)>(vs: seq<RuleView<T, V>>, a: T, bs: seq<T>): Result<bool, Error>
    decreases |bs|
  {
    if bs == [] then Success(false)
    else
      var m :- AllMatch(vs, a, bs[0]);
      if m then Success(true) else FirstMatch(vs, a, bs[1..])
  }

  /** Found exactly when some candidate satisfies the conjunction and every earlier one fails it. */
  lemma {:induction false} FirstMatchTrueIff<T, V>(vs: seq<RuleView<T, V>>, a: T, bs: seq<T>)
    ensures FirstMatch(vs, a, bs) == Success(true)
        <==> exists k :: 0 <= k < |bs| && AllMatch(vs, a, bs[k]) == Success(true)
                         && forall j :: 0 <= j < k ==> AllMatch(vs, a, bs[j]) == Success(false)
    decreases |bs|
  {
    if bs != [] {
      FirstMatchTrueIff(vs, a, bs[1..]);
      assert forall j :: 1 <= j < |bs| ==> bs[1..][j - 1] == bs[j];
      if FirstMatch(vs, a, bs) == Success(true) && AllMatch(vs, a, bs[0]) != Success(true) {
        var k :| 0 <= k < |bs[1..]| && AllMatch(vs, a, bs[1..][k]) == Success(true)
                 && forall j :: 0 <= j < k ==> AllMatch(vs, a, bs[1..][j]) == Success(false);
        assert AllMatch(vs, a, bs[k + 1]) == Success(true);
      }
      if exists k :: 0 <= k < |bs| && AllMatch(vs, a, bs[k]) == Success(true)
                     && forall j :: 0 <= j < k ==> AllMatch(vs, a, bs[j]) == Success(false) {
        var k :| 0 <= k < |bs| && AllMatch(vs, a, bs[k]) == Success(true)
                 && forall j :: 0 <= j < k ==> AllMatch(vs, a, bs[j]) == Success(false);
        if k > 0 {
          assert AllMatch(vs, a, bs[1..][k - 1]) == Success(true);
        }
      }
    }
  }

  /** Not found, without an exception, exactly when every candidate fails the conjunction. */
  lemma {:induction false} FirstMatchFalseIff<T, V>(vs: seq<RuleView<T, V>>, a: T, bs: seq<T>)
    ensures FirstMatch(vs, a, bs) == Success(false) <==> forall k :: 0 <= k < |bs| ==> AllMatch(vs, a, bs[k]) == Success(false)
    decreases |bs|
  {
    if bs != [] {
      FirstMatchFalseIff(vs, a, bs[1..]);
      assert forall j :: 1 <= j < |bs| ==> bs[1..][j - 1] == bs[j];
    }
  }

  /** No candidates: not found.  No rules: the first candidate is found.  Any ignored rule: nothing is ever found. */
  lemma ExistsEdgeCases<T, V>(vs: seq<RuleView<T, V>>, a: T, bs: seq<T>)
    ensures FirstMatch(vs, a, []) == Success(false)
    ensures vs == [] ==> FirstMatch(vs, a, bs) == Success(|bs| > 0)
    ensures (exists i :: 0 <= i < |vs| && vs[i].isIgnored) ==> FirstMatch(vs, a, bs) != Success(true)
  {
    if exists i :: 0 <= i < |vs| && vs[i].isIgnored {
      FirstMatchTrueIff(vs, a, bs);
      forall k | 0 <= k < |bs| ensures AllMatch(vs, a, bs[k]) != Success(true) {
        AllMatchTrueIff(vs, a, bs[k]);
      }
    }
  }

  /** The subjects that Exists does not find, in their order: the reference for the batch engine. */
  function NotFound<T(==), V(==)>(vs: seq<RuleView<T, V>>, subjects: seq<T>, candidates: seq<T>): seq<T>
    decreases |subjects|
  {
    if subjects == [] then []
    else
      (if FirstMatch(vs, subjects[0], candidates) == Success(false) then [subjects[0]] else [])
      + NotFound(vs, subjects[1..], candidates)
  }

  /** The not-found subjects are a filter of the subjects: each is drawn from them no more often than it occurs there, and Exists finds none of them. */
  lemma {:induction false} NotFoundIsFilter<T, V>(vs: seq<RuleView<T, V>>, subjects: seq<T>, candidates: seq<T>)
    ensures multiset(NotFound(vs, subjects, candidates)) <= multiset(subjects)
    ensures forall k :: 0 <= k < |NotFound(vs, subjects, candidates)| ==>
              FirstMatch(vs, NotFound(vs, subjects, candidates)[k], candidates) == Success(false)
    decreases |subjects|
  {
    if subjects != [] {
      NotFoundIsFilter(vs, subjects[1..], candidates);
      assert subjects == [subjects[0]] + subjects[1..];
      var head: seq<T> := if FirstMatch(vs, subjects[0], candidates) == Success(false) then [subjects[0]] else [];
      var rest := NotFound(vs, subjects[1..], candidates);
      assert NotFound(vs, subjects, candidates) == head + rest;
      forall k | 0 <= k < |head + rest|
        ensures FirstMatch(vs, (head + rest)[k], candidates) == Success(false)
      {
        if k >= |head| {
          assert (head + rest)[k] == rest[k - |head|];
        }
      }
    }
  }

  /** A subject is reported exactly when it occurs among the subjects and Exists does not find it. */
  lemma {:induction false} NotFoundMembers<T, V>(vs: seq<RuleView<T, V>>, subjects: seq<T>, candidates: seq<T>, x: T)
    ensures x in NotFound(vs, subjects, candidates) <==> x in subjects && FirstMatch(vs, x, candidates) == Success(false)
    decreases |subjects|
  {
    if subjects != [] {
      NotFoundMembers(vs, subjects[1..], candidates, x);
      assert subjects == [subjects[0]] + subjects[1..];
    }
  }

  /** The batch engine's loop: run Exists for each subject in order and keep the not-found ones. */
  function BatchFrom<T, V(==)>(vs: seq<RuleView<T, V>>, subjects: seq<T>, candidates: seq<T>, acc: seq<T>): Result<seq<T>, Error>
    decreases |subjects|
  {
    if subjects == [] then Success(acc)
    else
      var found :- FirstMatch(vs, subjects[0], candidates);
      BatchFrom(vs, subjects[1..], candidates, if found then acc else acc + [subjects[0]])
  }

  /** Exists(as, bs): the not-found subjects, in order, each as the Data of its not-found result. */
  function BatchSpec<T, V(==)>(vs: seq<RuleView<T, V>>, subjects: seq<T>, candidates: seq<T>): Result<seq<T>, Error>
  {
    BatchFrom(vs, subjects, candidates, [])
  }

  /** The batch engine keeps exactly the not-found subjects, in order, after what it had kept before. */
  lemma {:induction false} BatchIsNotFound<T, V>(vs: seq<RuleView<T, V>>, subjects: seq<T>, candidates: seq<T>, acc: seq<T>)
    ensures BatchFrom(vs, subjects, candidates, acc).Success? ==> BatchFrom(vs, subjects, candidates, acc) == Success(acc + NotFound(vs, subjects, candidates))
    decreases |subjects|
  {
    if subjects == [] {
      assert acc + [] == acc;
    } else {
      var f := FirstMatch(vs, subjects[0], candidates);
      if f.Success? {
        var head: seq<T> := if f.value then [] else [subjects[0]];
        var rest := NotFound(vs, subjects[1..], candidates);
        assert NotFound(vs, subjects, candidates) == head + rest;
        BatchIsNotFound(vs, subjects[1..], candidates, acc + head);
        assert (acc + head) + rest == acc + (head + rest);
        if f.value {
          assert acc + head == acc;
        }
      }
    }
  }

  /** The batch engine does not throw when no single Exists throws. */
  lemma {:induction false} BatchTotal<T, V>(vs: seq<RuleView<T, V>>, subjects: seq<T>, candidates: seq<T>, acc: seq<T>)
    requires forall k :: 0 <= k < |subjects| ==> FirstMatch(vs, subjects[k], candidates).Success?
    ensures BatchFrom(vs, subjects, candidates, acc).Success?
    decreases |subjects|
  {
    if subjects != [] {
      var f := FirstMatch(vs, subjects[0], candidates);
      assert f.Success?;
      forall k | 0 <= k < |subjects[1..]|
        ensures FirstMatch(vs, subjects[1..][k], candidates).Success?
      {
        assert subjects[1..][k] == subjects[k + 1];
      }
      BatchTotal(vs, subjects[1..], candidates, if f.value then acc else acc + [subjects[0]]);
    }
  }
}
