/**
 * A comparison rule: its fixed identity (accessor, expression, property type,
 * member) and its mutable configuration record.
 */
module PropertyRules {
  import opened Wrappers
  import opened Errors
  import opened Extensions

  /** A message as the engine stores it; None is a null string. */
  type Msg = Option<string>

  const DefaultMessage: string := "Difference found"

  /** The message function a fresh rule starts with. */
  function DefaultGetMessage<T>(obj: T): Msg
  {
    Some(DefaultMessage)
  }

  /** What a stored predicate receives as its second argument: another subject, or a literal value. */
  datatype Operand<T, V> = Subject(obj: T) | Literal(value: V)

  /**
   * The comparison delegate of a rule.  `Unset` is a null delegate;
   * `Equality` is the compiled EqualExpression (both sides through the rule's
   * accessor, then equal); `EqualTo(value, isInstance)` is the compiled
   * EqualToExpression for a value of type TX, where `isInstance(y)` says
   * whether the subject `y` passes the wrapper's cast to TX (an instance of
   * TX, or null with a reference TX); `Custom` is a caller's compiled
   * predicate over two subjects.
   */
  datatype Comparison<!T, V> =
    | Unset
    | Equality
    | EqualTo(value: V, isInstance: T -> bool)
    | Custom(holds: (T, T) -> bool)

  /**
   * Invoking the stored delegate on (a, b).  The typed wrappers cast the second
   * argument back to the type the predicate was built for: a subject passes
   * the cast of a literal comparison exactly when `isInstance` holds of it,
   * and a literal (the value of the one-off path) passes only the cast of a
   * literal comparison.
   */
  function Eval<T, V(==)>(c: Comparison<T, V>, prop: T -> V, a: T, b: Operand<T, V>, member: string): (r: Result<bool, Error>)
    ensures c.Unset? <==> r == Failure(NullPredicate(member))
    ensures c.Equality? && b.Subject? ==> r == Success(prop(a) == prop(b.obj))
    ensures c.EqualTo? && b.Literal? ==> r == Success(prop(a) == c.value)
    ensures c.EqualTo? && b.Subject? ==>
              r == if c.isInstance(b.obj) then Success(prop(a) == c.value) else Failure(InvalidCast)
    ensures c.Custom? && b.Subject? ==> r == Success(c.holds(a, b.obj))
    ensures r.Failure? && !c.Unset? ==> r.error == InvalidCast
  {
    match c
    case Unset => Failure(NullPredicate(member))
    case Equality =>
      (match b
       case Subject(y) => Success(prop(a) == prop(y))
       case Literal(_) => Failure(InvalidCast))
    case EqualTo(v, isInstance) =>
      (match b
       case Literal(_) => Success(prop(a) == v)
       case Subject(y) => if isInstance(y) then Success(prop(a) == v) else Failure(InvalidCast))
    case Custom(f) =>
      (match b
       case Subject(y) => Success(f(a, y))
       case Literal(_) => Failure(InvalidCast))
  }

  /** The predicate can be invoked with the subject `b` as second argument: it is set, and `b` passes its cast. */
  predicate EvaluatesOn<T, V>(c: Comparison<T, V>, b: T)
  {
    c.Equality? || c.Custom? || (c.EqualTo? && c.isInstance(b))
  }

  /** The GetMessageAsync getter: a wrapper of the synchronous function whenever one is set, else the stored asynchronous one. */
  function SelectProvider<T>(sync: Option<T -> Msg>, async: Option<T -> Msg>): (p: Option<T -> Msg>)
    ensures sync.Some? ==> p == sync
    ensures sync.None? ==> p == async
  {
    if sync.Some? then sync else async
  }

  /** Running the selected message function on a subject; a null function throws. */
  function ResolveMessage<T>(provider: Option<T -> Msg>, obj: T, member: string): (r: Result<Msg, Error>)
    ensures r.Failure? <==> provider.None?
    ensures r.Failure? ==> r.error == NullMessageProvider(member)
    ensures r.Success? ==> r.value == provider.value(obj)
  {
    match provider
    case None => Failure(NullMessageProvider(member))
    case Some(f) => Success(f(obj))
  }

  /** While a synchronous message function is set, the resolved message is its value, whatever the asynchronous slot holds. */
  lemma SyncMessageWins<T>(sync: T -> Msg, async: Option<T -> Msg>, obj: T, member: string)
    ensures ResolveMessage(SelectProvider(Some(sync), async), obj, member) == Success(sync(obj))
  {
  }

  /** A rule's configuration, as it stands at one moment. */
  datatype RuleView<!T, V> = RuleView(
    member: MemberInfo,
    prop: T -> V,
    compare: Comparison<T, V>,
    provider: Option<T -> Msg>,
    withoutMessage: bool,
    isIgnored: bool)

  /** PropertyData: the mutable configuration of one rule. */
  class PropertyData<T, V> {
    var asyncMessage: Option<T -> Msg>
    var getMessage: Option<T -> Msg>
    var withoutMessage: bool
    var isIgnored: bool
    var compare: Comparison<T, V>

    /** The values a fresh record holds: the default message, both flags off and no predicate. */
    ghost predicate HasDefaults()
      reads this
    {
      && getMessage == Some(DefaultGetMessage)
      && asyncMessage.None?
      && !withoutMessage
      && !isIgnored
      && compare.Unset?
    }

    constructor()
      ensures HasDefaults()
    {
      asyncMessage := None;
      getMessage := Some(DefaultGetMessage);
      withoutMessage := false;
      isIgnored := false;
      compare := Unset;
    }

    /** The GetMessageAsync getter. */
    function MessageProvider(): (p: Option<T -> Msg>)
      reads this
      ensures p == SelectProvider(getMessage, asyncMessage)
    {
      if getMessage.Some? then getMessage else asyncMessage
    }
  }

  /** PropertyRule: get-only identity and a configuration record of its own. */
  class PropertyRule<T, V> {
    const propertyFunc: T -> V
    const expression: Expr
    const propertyType: string
    const data: PropertyData<T, V>
    const member: MemberInfo

    constructor(propertyFunc: T -> V, expression: Expr, propertyType: string, member: MemberInfo)
      ensures this.propertyFunc == propertyFunc && this.expression == expression
      ensures this.propertyType == propertyType && this.member == member
      ensures fresh(data) && data.HasDefaults()
    {
      this.data := new PropertyData<T, V>();
      this.propertyFunc := propertyFunc;
      this.expression := expression;
      this.propertyType := propertyType;
      this.member := member;
    }

    /** The rule's identity together with its configuration as it now stands. */
    function View(): (v: RuleView<T, V>)
      reads data
      ensures v.member == member && v.isIgnored == data.isIgnored && v.compare == data.compare
    {
      RuleView(member, propertyFunc, data.compare, data.MessageProvider(), data.withoutMessage, data.isIgnored)
    }
  }

  /** An `Expression<Func<T, TProperty>>`: its body and what compiling it yields. */
  datatype Lambda<!T, V> = Lambda(body: Expr, compiled: T -> V)

  /** The identity Create derives from a lambda body, or the exception it throws. */
  function ResolveProperty(body: Expr): (r: Result<MemberInfo, Error>)
    ensures r.Success? <==> RootedMember(body).Some? && RootedMember(body).value.kind == Property
    ensures r.Success? ==> RootedMember(body) == Some(r.value)
    ensures RootedMember(body).None? ==> r == Failure(NullMember)
  {
    match RootedMember(body)
    case None => Failure(NullMember)
    case Some(m) => if m.kind == Property then Success(m) else Failure(NotAProperty(m.name))
  }

  /** PropertyRule.Create: resolve the member, read its property type and build a rule with fresh configuration. */
  method Create<T, V>(lambda: Lambda<T, V>) returns (r: Result<PropertyRule<T, V>, Error>)
    ensures r.Failure? ==> ResolveProperty(lambda.body) == Failure(r.error)
    ensures r.Success? ==> ResolveProperty(lambda.body) == Success(r.value.member)
    ensures r.Success? ==> fresh(r.value) && fresh(r.value.data) && r.value.data.HasDefaults()
    ensures r.Success? ==> r.value.propertyType == r.value.member.memberType
    ensures r.Success? ==> r.value.propertyFunc == lambda.compiled && r.value.expression == lambda.body
  {
    var member := GetMember(lambda.body);
    if member.None? {
      return Failure(NullMember);
    }
    if member.value.kind != Property {
      return Failure(NotAProperty(member.value.name));
    }
    var rule := new PropertyRule(lambda.compiled, lambda.body, member.value.memberType, member.value);
    return Success(rule);
  }
}
