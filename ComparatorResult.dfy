/** The two result shapes the engine hands back: a difference report and an existence report. */
module Results {
  import opened Wrappers
  import opened Errors
  import opened Extensions
  import opened PropertyRules

  /** The dynamic bag of differing values: member name to (label to value). */
  type DiffData<V> = map<string, map<string, V>>

  /** The value a difference report holds: the flag, member to message, and the differing values. */
  datatype Report<V> = Report(isDifferent: bool, messages: map<MemberInfo, Msg>, data: DiffData<V>)

  /** The report of a fresh result: no entries, no data, not different. */
  function EmptyReport<V>(): Report<V>
  {
    Report(false, map[], map[])
  }

  /** Dictionary.Add: an existing key throws, any other key is added. */
  function DictAdd(d: map<MemberInfo, Msg>, key: MemberInfo, message: Msg): (r: Result<map<MemberInfo, Msg>, Error>)
    ensures r.Failure? <==> key in d
    ensures r.Failure? ==> r.error == DuplicateKey(key.name)
    ensures r.Success? ==> r.value.Keys == d.Keys + {key} && r.value[key] == message
    ensures r.Success? ==> forall k :: k in d ==> r.value[k] == d[k]
  {
    if key in d then Failure(DuplicateKey(key.name)) else Success(d[key := message])
  }

  /** ComparatorExistsResult: whether the subject was found and, when not, the subject itself. */
  class ComparatorExistsResult<T> {
    var found: bool
    var data: Option<T>

    constructor()
      ensures !found && data == None
    {
      found := false;
      data := None;
    }
  }

  /** ComparatorResult: a dictionary from member to message, plus the difference flag and the dynamic data bag. */
  class ComparatorResult<V> {
    var entries: map<MemberInfo, Msg>
    var data: Option<DiffData<V>>
    var isDifferent: bool

    constructor()
      ensures entries == map[] && data == None && !isDifferent
    {
      entries := map[];
      data := None;
      isDifferent := false;
    }

    /** The copy constructor: exactly the given dictionary's entries. */
    constructor FromDictionary(dictionary: map<MemberInfo, Msg>)
      ensures entries == dictionary && data == None && !isDifferent
    {
      entries := dictionary;
      data := None;
      isDifferent := false;
    }

    /** Whether this result holds exactly the report `r`. */
    ghost predicate Holds(r: Report<V>)
      reads this
    {
      entries == r.messages && isDifferent == r.isDifferent && data == Some(r.data)
    }

    /** Dictionary.Add on the result itself: at most one message per member. */
    method Add(key: MemberInfo, message: Msg) returns (error: Option<Error>)
      modifies this`entries
      ensures error.Some? <==> key in old(entries)
      ensures DictAdd(old(entries), key, message) == if error.Some? then Failure(error.value) else Success(entries)
      ensures error.Some? ==> entries == old(entries)
    {
      var added := DictAdd(entries, key, message);
      if added.Failure? {
        return Some(added.error);
      }
      entries := added.value;
      return None;
    }
  }
}
