/**
 * The member resolver and the dynamic-bag insertion of the comparator's
 * internal extension methods.  Expression trees are reduced to the node kinds
 * the resolver tells apart.
 */
module Extensions {
  import opened Wrappers
  import opened Errors

  /** The two kinds of member a member-access node can name. */
  datatype MemberKind = Property | Field

  /** Reflection's MemberInfo, reduced to what the engine reads: the name, the kind and the declared type. */
  datatype MemberInfo = MemberInfo(name: string, kind: MemberKind, memberType: string)

  /** Expression-tree nodes as the resolver sees them. */
  datatype Expr =
    | Parameter                                    // a ParameterExpression
    | Constant                                     // a constant or a captured closure object
    | Member(inner: Option<Expr>, member: MemberInfo)  // a MemberExpression; `inner` is None for a static member
    | Unary(operand: Expr)                         // any UnaryExpression: Convert, TypeAs, Negate, ...
    | Other                                        // calls, binary operators and every other node

  function Depth(e: Expr): nat
  {
    match e
    case Member(inner, _) => 1 + OptDepth(inner)
    case Unary(operand) => 1 + Depth(operand)
    case _ => 1
  }

  function OptDepth(e: Option<Expr>): nat
  {
    match e
    case None => 0
    case Some(x) => Depth(x)
  }

  /** Strips exactly one unary layer; any other node comes back unchanged. */
  function RemoveUnary(e: Expr): (r: Expr)
    ensures e.Unary? ==> Unary(r) == e
    ensures !e.Unary? ==> r == e
    ensures Depth(r) < Depth(e) <==> e.Unary?
  {
    if e.Unary? then e.operand else e
  }

  /**
   * Where the resolver's downward walk stops: at each level one unary layer is
   * stripped, and a member access is replaced by its inner expression.  The
   * result is the stripped node that ended the walk (never a member access), or
   * None when the walk reached a null inner expression.
   */
  function WalkEnd(e: Option<Expr>): (r: Option<Expr>)
    ensures r.Some? ==> !r.value.Member?
    decreases OptDepth(e)
  {
    match e
    case None => None
    case Some(x) =>
      var y := RemoveUnary(x);
      if y.Member? then WalkEnd(y.inner) else Some(y)
  }

  /**
   * The value computed by the resolver that PropertyRule.Create uses: the
   * terminal member of the body, provided the body is a member access after
   * one unary strip and its access chain bottoms out at a parameter.
   */
  function RootedMember(body: Expr): (r: Option<MemberInfo>)
    ensures !RemoveUnary(body).Member? ==> r.None?
    ensures r.Some? ==> RemoveUnary(body).Member? && r.value == RemoveUnary(body).member
  {
    var m := RemoveUnary(body);
    if m.Member? && WalkEnd(m.inner) == Some(Parameter) then Some(m.member) else None
  }

  /** The resolver itself: a loop that walks the member chain downward, as the source does. */
  method GetMember(body: Expr) returns (member: Option<MemberInfo>)
    ensures member == RootedMember(body)
  {
    var memberExp := RemoveUnary(body);
    if !memberExp.Member? {
      return None;
    }
    var current := memberExp.inner;
    while true
      invariant WalkEnd(current) == WalkEnd(memberExp.inner)
      decreases OptDepth(current)
    {
      if current.Some? {
        current := Some(RemoveUnary(current.value));
      }
      if current.Some? && current.value.Member? {
        current := current.value.inner;
      } else {
        break;
      }
    }
    if current != Some(Parameter) {
      return None;
    }
    return Some(memberExp.member);
  }

  /** The LambdaExpression overload: the member of a body that is a member access after one unary strip, with no root check. */
  function GetLambdaMember(body: Expr): (r: Option<MemberInfo>)
    ensures r.Some? <==> RemoveUnary(body).Member?
    ensures r.Some? ==> r.value == RemoveUnary(body).member
  {
    var m := RemoveUnary(body);
    if m.Member? then Some(m.member) else None
  }

  /** One level of a field-access chain: the member and whether the access is wrapped in one conversion. */
  datatype Step = Step(member: MemberInfo, converted: bool)

  /** A field-access chain `root.s0.s1...`, each level optionally wrapped in one conversion. */
  function AccessFrom(root: Expr, path: seq<Step>): Expr
    decreases |path|
  {
    if path == [] then root
    else
      var s := path[|path| - 1];
      var m := Member(Some(AccessFrom(root, path[..|path| - 1])), s.member);
      if s.converted then Unary(m) else m
  }

  /** A chain rooted at the lambda's parameter, the parameter itself possibly converted. */
  function Access(rootConverted: bool, path: seq<Step>): Expr
  {
    AccessFrom(if rootConverted then Unary(Parameter) else Parameter, path)
  }

  /** The walk through a chain ends where the walk through its root ends. */
  lemma {:induction false} WalkEndOfChain(root: Expr, path: seq<Step>)
    ensures WalkEnd(Some(AccessFrom(root, path))) == WalkEnd(Some(root))
    decreases |path|
  {
    if path != [] {
      WalkEndOfChain(root, path[..|path| - 1]);
    }
  }

  /** Resolving a chain of one or more accesses yields its outermost member exactly when the root walks to a parameter. */
  lemma ResolveChain(root: Expr, path: seq<Step>)
    requires |path| > 0
    ensures RootedMember(AccessFrom(root, path))
         == if WalkEnd(Some(root)) == Some(Parameter) then Some(path[|path| - 1].member) else None
  {
    WalkEndOfChain(root, path[..|path| - 1]);
  }

  /** Every inner expression that walks to a parameter is a parameter-rooted chain. */
  lemma {:induction false} RootedIsChain(e: Expr)
    requires WalkEnd(Some(e)) == Some(Parameter)
    ensures exists c: bool, path: seq<Step> :: Access(c, path) == e
    decreases Depth(e)
  {
    var y := RemoveUnary(e);
    if y.Member? {
      var inner := y.inner.value;
      assert Depth(inner) < Depth(y) <= Depth(e);
      RootedIsChain(inner);
      var c: bool, path: seq<Step> :| Access(c, path) == inner;
      var path' := path + [Step(y.member, e.Unary?)];
      assert path'[..|path'| - 1] == path;
      assert Access(c, path') == e;
    } else {
      assert Access(e.Unary?, []) == e;
    }
  }

  /**
   * The resolver accepts exactly the chains of one or more member accesses
   * rooted at the parameter (one conversion allowed per level), and it returns
   * the outermost member of the chain.
   */
  lemma RootedMemberIff(body: Expr, m: MemberInfo)
    ensures RootedMember(body) == Some(m)
        <==> exists c: bool, path: seq<Step> :: |path| > 0 && Access(c, path) == body && path[|path| - 1].member == m
  {
    if RootedMember(body) == Some(m) {
      var mem := RemoveUnary(body);
      RootedIsChain(mem.inner.value);
      var c: bool, path: seq<Step> :| Access(c, path) == mem.inner.value;
      var path' := path + [Step(m, body.Unary?)];
      assert path'[..|path'| - 1] == path;
      assert Access(c, path') == body;
    }
    if exists c: bool, path: seq<Step> :: |path| > 0 && Access(c, path) == body && path[|path| - 1].member == m {
      var c: bool, path: seq<Step> :| |path| > 0 && Access(c, path) == body && path[|path| - 1].member == m;
      ResolveChain(if c then Unary(Parameter) else Parameter, path);
    }
  }

  /** Chains rooted at a constant or closure, or at a static member, are rejected. */
  lemma NonParameterRootRejected(path: seq<Step>, s: MemberInfo)
    requires |path| > 0
    ensures RootedMember(AccessFrom(Constant, path)) == None
    ensures RootedMember(AccessFrom(Member(None, s), path)) == None
  {
    ResolveChain(Constant, path);
    ResolveChain(Member(None, s), path);
  }

  /** Two stacked conversions at one level stop the walk at a conversion node, so resolution fails. */
  lemma DoubleConversionRejected(c: bool, path: seq<Step>, m: MemberInfo)
    ensures RootedMember(Member(Some(Unary(Unary(Access(c, path)))), m)) == None
  {
  }

  /** Where the rooted resolver succeeds the unchecked overload agrees; on a closure root only the unchecked one succeeds. */
  lemma LambdaOverloadSkipsRootCheck(body: Expr, m: MemberInfo)
    ensures RootedMember(body).Some? ==> GetLambdaMember(body) == RootedMember(body)
    ensures GetLambdaMember(Member(Some(Constant), m)) == Some(m)
    ensures RootedMember(Member(Some(Constant), m)) == None
  {
  }

  /** ExpandoObject.Add: inserting an existing key throws, any other key is added. */
  function ExpandoAdd<X>(bag: map<string, X>, key: string, value: X): (r: Result<map<string, X>, Error>)
    ensures r.Failure? <==> key in bag
    ensures r.Failure? ==> r.error == DuplicateKey(key)
    ensures r.Success? ==> r.value.Keys == bag.Keys + {key} && r.value[key] == value
    ensures r.Success? ==> forall k :: k in bag ==> r.value[k] == bag[k]
  {
    if key in bag then Failure(DuplicateKey(key)) else Success(bag[key := value])
  }
}
