/**
 * AbstractComparator<T>: the rule registry, the label names, and the engines
 * that evaluate the registered rules against subjects.  Each engine is a loop
 * over the rules or the candidates, proved against the matching function of
 * module Evaluation.
 */
module AbstractComparators {
  import opened Wrappers
  import opened Errors
  import opened Extensions
  import opened PropertyRules
  import opened RuleBuilders
  import opened Results
  import opened Evaluation

  /** Rules.FirstOrDefault by member name: the index of the first rule registered under `name`. */
  function FindByName<T, V>(rules: seq<PropertyRule<T, V>>, name: string): (r: Option<nat>)
    ensures r.Some? ==> r.value < |rules| && rules[r.value].member.name == name
    ensures r.Some? ==> forall j :: 0 <= j < r.value ==> rules[j].member.name != name
    ensures r.None? <==> forall j :: 0 <= j < |rules| ==> rules[j].member.name != name
    decreases |rules|
  {
    if rules == [] then None
    else if rules[0].member.name == name then Some(0)
    else
      match FindByName(rules[1..], name)
      case None => None
      case Some(i) => Some(i + 1)
  }

  /** The configurations of `rules`, one snapshot per rule, in order. */
  ghost function ViewsOf<T, V>(rules: seq<PropertyRule<T, V>>): (vs: seq<RuleView<T, V>>)
    reads set r | r in rules :: r.data
    ensures |vs| == |rules|
    ensures forall i :: 0 <= i < |rules| ==> vs[i] == rules[i].View()
    decreases |rules|
  {
    if rules == [] then [] else [rules[0].View()] + ViewsOf(rules[1..])
  }

  class Comparator<T(==), V(==)> {
    var rules: seq<PropertyRule<T, V>>
    var nameA: string
    var nameB: string

    /** One rule per member name, and no two rules share a configuration record. */
    ghost predicate Valid()
      reads this
    {
      && (forall i, j :: 0 <= i < j < |rules| ==> rules[i].member.name != rules[j].member.name)
      && (forall i, j :: 0 <= i < j < |rules| ==> rules[i].data != rules[j].data)
    }

    /** The configuration records of the registered rules. */
    ghost function Footprint(): set<object>
      reads this
    {
      set r | r in rules :: r.data
    }

    /** The registered rules as they are now configured. */
    ghost function Views(): (vs: seq<RuleView<T, V>>)
      reads this, Footprint()
      ensures |vs| == |rules|
      ensures forall i :: 0 <= i < |rules| ==> vs[i].member == rules[i].member
      ensures Valid() ==> UniqueNames(vs)
    {
      ViewsOf(rules)
    }

    /** An empty registry with the default labels "A" and "B". */
    constructor()
      ensures Valid() && rules == [] && nameA == "A" && nameB == "B"
    {
      rules := [];
      nameA := "A";
      nameB := "B";
    }

    /** NameOfObject: replaces both labels and nothing else. */
    method NameOfObject(nameObjA: string, nameObjB: string)
      modifies this`nameA, this`nameB
      ensures nameA == nameObjA && nameB == nameObjB
    {
      nameA := nameObjA;
      nameB := nameObjB;
    }

    /**
     * RuleBaseFor: build a rule for the expression; if a rule with the same
     * member name is registered, hand back a builder over that one and leave
     * the list alone, otherwise append the new rule.
     */
    method RuleBaseFor(expression: Lambda<T, V>) returns (outcome: Result<RuleBuilder<T, V>, Error>)
      requires Valid()
      modifies this`rules
      ensures Valid()
      ensures outcome.Failure? ==> ResolveProperty(expression.body) == Failure(outcome.error) && rules == old(rules)
      ensures outcome.Success? ==> ResolveProperty(expression.body).Success?
      ensures outcome.Success? ==>
                match FindByName(old(rules), ResolveProperty(expression.body).value.name)
                case Some(i) => rules == old(rules) && outcome.value.rule == rules[i]
                case None =>
                  && rules == old(rules) + [outcome.value.rule]
                  && fresh(outcome.value.rule) && fresh(outcome.value.rule.data)
                  && outcome.value.rule.data.HasDefaults()
                  && outcome.value.rule.member == ResolveProperty(expression.body).value
                  && outcome.value.rule.propertyFunc == expression.compiled
    {
      var rule :- Create(expression);
      var existing := FindByName(rules, rule.member.name);
      if existing.Some? {
        var builder := new RuleBuilder(rules[existing.value]);
        return Success(builder);
      }
      rules := rules + [rule];
      var builder := new RuleBuilder(rule);
      return Success(builder);
    }

    /**
     * The body of CompareWith's loop for one rule: evaluate it unless it is
     * ignored and, on a difference, add the labelled values and the message.
     */
    method ApplyRule(rule: PropertyRule<T, V>, a: T, b: T, result: ComparatorResult<V>, resultData: DiffData<V>)
      returns (outcome: Result<DiffData<V>, Error>)
      modifies result`entries, result`isDifferent
      ensures outcome.Failure? ==>
                RuleStep(rule.View(), nameA, nameB, a, b, Report(old(result.isDifferent), old(result.entries), resultData))
                == Failure(outcome.error)
      ensures outcome.Success? ==>
                RuleStep(rule.View(), nameA, nameB, a, b, Report(old(result.isDifferent), old(result.entries), resultData))
                == Success(Report(result.isDifferent, result.entries, outcome.value))
    {
      if rule.data.isIgnored {
        return Success(resultData);
      }
      var same :- Eval(rule.data.compare, rule.propertyFunc, a, Subject(b), rule.member.name);
      if same {
        return Success(resultData);
      }
      var propData := map[nameA := rule.propertyFunc(a)];
      propData :- ExpandoAdd(propData, nameB, rule.propertyFunc(b));
      var newData :- ExpandoAdd(resultData, rule.member.name, propData);
      if !result.isDifferent {
        result.isDifferent := true;
      }
      var message :- if !rule.data.withoutMessage
                     then ResolveMessage(rule.data.MessageProvider(), a, rule.member.name)
                     else Success(None);
      var error := result.Add(rule.member, message);
      if error.Some? {
        return Failure(error.value);
      }
      return Success(newData);
    }

    /** CompareWith(a, b): one difference entry per non-ignored rule whose predicate fails, in registration order. */
    method CompareWith(a: T, b: T) returns (outcome: Result<ComparatorResult<V>, Error>)
      ensures outcome.Failure? ==> CompareSpec(Views(), nameA, nameB, a, b) == Failure(outcome.error)
      ensures outcome.Success? ==> CompareSpec(Views(), nameA, nameB, a, b).Success?
      ensures outcome.Success? ==> fresh(outcome.value) && outcome.value.Holds(CompareSpec(Views(), nameA, nameB, a, b).value)
    {
      var result := new ComparatorResult<V>();
      var resultData: DiffData<V> := map[];
      ghost var views := Views();
      var i := 0;
      while i < |rules|
        invariant 0 <= i <= |rules|
        invariant fresh(result)
        invariant CompareFrom(views[i..], nameA, nameB, a, b, Report(result.isDifferent, result.entries, resultData))
               == CompareSpec(views, nameA, nameB, a, b)
      {
        assert views[i..][0] == views[i] == rules[i].View();
        assert views[i..][1..] == views[i + 1..];
        var step := ApplyRule(rules[i], a, b, result, resultData);
        if step.Failure? {
          return Failure(step.error);
        }
        resultData := step.value;
        i := i + 1;
      }
      result.data := Some(resultData);
      return Success(result);
    }

    /**
     * The one-off CompareWith(a, property, value, message): a fresh rule that
     * is never registered, bound to `value` by CompareTo, and the caller's
     * message as the entry.
     */
    method CompareWithValue(a: T, property: Lambda<T, V>, value: V, message: Msg) returns (outcome: Result<ComparatorResult<V>, Error>)
      ensures outcome.Failure? ==> OneOffSpec(property.body, property.compiled, nameA, nameB, a, value, message) == Failure(outcome.error)
      ensures outcome.Success? ==> OneOffSpec(property.body, property.compiled, nameA, nameB, a, value, message).Success?
      ensures outcome.Success? ==> fresh(outcome.value)
      ensures outcome.Success? ==> outcome.value.Holds(OneOffSpec(property.body, property.compiled, nameA, nameB, a, value, message).value)
    {
      var result := new ComparatorResult<V>();
      var resultData: DiffData<V> := map[];
      var propertyRule :- Create(property);
      var builder := new RuleBuilder(propertyRule);
      // The one-off rule is only ever handed the literal, so its cast test on a subject is never consulted.
      var _ := builder.CompareTo(value, _ => false);
      if !propertyRule.data.isIgnored {
        var same := Eval(propertyRule.data.compare, propertyRule.propertyFunc, a, Literal(value), propertyRule.member.name).value;
        if !same {
          var propData := map[nameA := propertyRule.propertyFunc(a)];
          propData :- ExpandoAdd(propData, nameB, value);
          resultData := ExpandoAdd(resultData, propertyRule.member.name, propData).value;
          if !result.isDifferent {
            result.isDifferent := true;
          }
          var _ := result.Add(propertyRule.member, message);
        }
      }
      result.data := Some(resultData);
      return Success(result);
    }

    /** Rules.All(rule => !rule.IsIgnored && rule.Compare(a, b)), stopping at the first rule that fails. */
    method AllRulesHold(a: T, b: T) returns (r: Result<bool, Error>)
      ensures r == AllMatch(Views(), a, b)
    {
      ghost var views := Views();
      var i := 0;
      while i < |rules|
        invariant 0 <= i <= |rules|
        invariant AllMatch(views[i..], a, b) == AllMatch(views, a, b)
      {
        var rule := rules[i];
        assert views[i..][0] == views[i] == rule.View();
        assert views[i..][1..] == views[i + 1..];
        if rule.data.isIgnored {
          return Success(false);
        }
        var holds :- Eval(rule.data.compare, rule.propertyFunc, a, Subject(b), rule.member.name);
        if !holds {
          return Success(false);
        }
        i := i + 1;
      }
      return Success(true);
    }

    /** Exists(a, candidates): the first candidate satisfying every rule ends the scan; when none does, the result carries `a`. */
    method Exists(a: T, candidates: seq<T>) returns (outcome: Result<ComparatorExistsResult<T>, Error>)
      ensures outcome.Failure? ==> FirstMatch(Views(), a, candidates) == Failure(outcome.error)
      ensures outcome.Success? ==> fresh(outcome.value) && FirstMatch(Views(), a, candidates) == Success(outcome.value.found)
      ensures outcome.Success? ==> outcome.value.data == if outcome.value.found then None else Some(a)
    {
      var result := new ComparatorExistsResult<T>();
      ghost var views := Views();
      var i := 0;
      while i < |candidates|
        invariant 0 <= i <= |candidates|
        invariant fresh(result) && !result.found && result.data == None
        invariant views == Views()
        invariant FirstMatch(views, a, candidates[i..]) == FirstMatch(views, a, candidates)
      {
        assert candidates[i..][0] == candidates[i];
        assert candidates[i..][1..] == candidates[i + 1..];
        var all :- AllRulesHold(a, candidates[i]);
        result.found := all;
        if result.found {
          break;
        }
        i := i + 1;
      }
      if !result.found {
        result.data := Some(a);
      }
      return Success(result);
    }

    /** Exists(subjects, candidates): the not-found results, in the order of `subjects`. */
    method ExistsAll(subjects: seq<T>, candidates: seq<T>) returns (outcome: Result<seq<ComparatorExistsResult<T>>, Error>)
      ensures outcome.Failure? ==> BatchSpec(Views(), subjects, candidates) == Failure(outcome.error)
      ensures outcome.Success? ==> BatchSpec(Views(), subjects, candidates).Success?
      ensures outcome.Success? ==>
                var kept := BatchSpec(Views(), subjects, candidates).value;
                && |outcome.value| == |kept|
                && forall k :: 0 <= k < |kept| ==>
                     fresh(outcome.value[k]) && !outcome.value[k].found && outcome.value[k].data == Some(kept[k])
    {
      var results: seq<ComparatorExistsResult<T>> := [];
      ghost var views := Views();
      ghost var kept: seq<T> := [];
      var i := 0;
      while i < |subjects|
        invariant 0 <= i <= |subjects|
        invariant BatchFrom(views, subjects[i..], candidates, kept) == BatchSpec(views, subjects, candidates)
        invariant |results| == |kept|
        invariant forall k :: 0 <= k < |kept| ==> fresh(results[k]) && !results[k].found && results[k].data == Some(kept[k])
      {
        assert subjects[i..][0] == subjects[i];
        assert subjects[i..][1..] == subjects[i + 1..];
        var result :- Exists(subjects[i], candidates);
        if !result.found {
          results := results + [result];
          kept := kept + [subjects[i]];
        }
        i := i + 1;
      }
      return Success(results);
    }
  }
}
