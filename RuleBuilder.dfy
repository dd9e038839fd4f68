/**
 * The fluent handle over one registered rule.  Every mutator writes exactly
 * one field of the rule's shared configuration record and hands back the same
 * builder, so calls chain and the last writer of a field wins.
 */
module RuleBuilders {
  import opened Wrappers
  import opened PropertyRules

  class RuleBuilder<T, V> {
    const rule: PropertyRule<T, V>

    constructor(rule: PropertyRule<T, V>)
      ensures this.rule == rule
    {
      this.rule := rule;
    }

    /** Compare(): both subjects through the rule's accessor, then equal (EqualExpression). */
    method Compare() returns (self: RuleBuilder<T, V>)
      modifies rule.data`compare
      ensures self == this
      ensures rule.data.compare == Equality
    {
      rule.data.compare := Equality;
      self := this;
    }

    /**
     * CompareTo(value): the subject's property equals `value`; the second
     * argument is only cast to the value's type TX (EqualToExpression).
     * `isInstance` is the runtime test of that cast on a subject.
     */
    method CompareTo(value: V, isInstance: T -> bool) returns (self: RuleBuilder<T, V>)
      modifies rule.data`compare
      ensures self == this
      ensures rule.data.compare == EqualTo(value, isInstance)
    {
      rule.data.compare := EqualTo(value, isInstance);
      self := this;
    }

    /** Compare(func): the caller's predicate over two subjects replaces any earlier one. */
    method CompareBy(holds: (T, T) -> bool) returns (self: RuleBuilder<T, V>)
      modifies rule.data`compare
      ensures self == this
      ensures rule.data.compare == Custom(holds)
    {
      rule.data.compare := Custom(holds);
      self := this;
    }

    /** WithMessage(string): the same message whatever the subject. */
    method WithMessage(message: Msg) returns (self: RuleBuilder<T, V>)
      modifies rule.data`getMessage
      ensures self == this
      ensures rule.data.getMessage.Some?
      ensures forall obj :: rule.data.getMessage.value(obj) == message
    {
      rule.data.getMessage := Some(_ => message);
      self := this;
    }

    /** WithMessage(func): the message computed from the first subject. */
    method WithMessageFrom(message: T -> Msg) returns (self: RuleBuilder<T, V>)
      modifies rule.data`getMessage
      ensures self == this
      ensures rule.data.getMessage == Some(message)
    {
      rule.data.getMessage := Some(message);
      self := this;
    }

    /** WithoutMessage(): the flag is set and never cleared by any builder method. */
    method WithoutMessage() returns (self: RuleBuilder<T, V>)
      modifies rule.data`withoutMessage
      ensures self == this
      ensures rule.data.withoutMessage
    {
      rule.data.withoutMessage := true;
      self := this;
    }

    /** WithMessageAsync(func): only the asynchronous slot is written; the synchronous function stays in force. */
    method WithMessageAsync(message: T -> Msg) returns (self: RuleBuilder<T, V>)
      modifies rule.data`asyncMessage
      ensures self == this
      ensures rule.data.asyncMessage == Some(message)
      ensures rule.data.MessageProvider() == SelectProvider(rule.data.getMessage, Some(message))
    {
      rule.data.asyncMessage := Some(message);
      self := this;
    }

    /** Ignore(): the flag is set and never cleared by any builder method. */
    method Ignore() returns (self: RuleBuilder<T, V>)
      modifies rule.data`isIgnored
      ensures self == this
      ensures rule.data.isIgnored
    {
      rule.data.isIgnored := true;
      self := this;
    }
  }
}
