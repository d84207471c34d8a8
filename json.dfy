/** Decoded JSON payloads as the backend sees them after `response.json()`:
    Python's `None`, booleans, integers, strings, lists and dicts, with the
    three Python operations the parsing code leans on — `dict.get`,
    truthiness (and so `a or b`), and `str()` of a value. */
module Json {
  import opened Text

  datatype Value =
    | Null
    | Bool(b: bool)
    | Int(i: int)
    | Str(s: string)
    | List(items: seq<Value>)
    | Object(fields: map<string, Value>)

  /** `d.get(key)`: the stored value, or `None` when the key is absent. */
  function Get(d: map<string, Value>, key: string): (r: Value)
    ensures key !in d ==> r == Null
  {
    if key in d then d[key] else Null
  }

  /** Python truthiness: `None`, `False`, `0`, `""`, `[]` and `{}` are
      false, everything else true. */
  predicate Truthy(v: Value) {
    match v
    case Null => false
    case Bool(b) => b
    case Int(i) => i != 0
    case Str(s) => s != ""
    case List(items) => items != []
    case Object(fields) => fields != map[]
  }

  /** `d.get(k1) or d.get(k2) or ... or d.get(kn)`: the first truthy value,
      or the last one looked up when none is truthy. */
  function OrChain(d: map<string, Value>, keys: seq<string>): (r: Value)
    requires keys != []
    decreases |keys|
  {
    var v := Get(d, keys[0]);
    if |keys| == 1 || Truthy(v) then v else OrChain(d, keys[1..])
  }

  /** The chain is truthy exactly when some key holds a truthy value, and
      then it is the value of the first such key. */
  lemma {:induction false} OrChainFirst(d: map<string, Value>, keys: seq<string>)
    requires keys != []
    ensures Truthy(OrChain(d, keys)) <==> exists i :: 0 <= i < |keys| && Truthy(Get(d, keys[i]))
    ensures forall i :: 0 <= i < |keys| && Truthy(Get(d, keys[i])) && (forall j :: 0 <= j < i ==> !Truthy(Get(d, keys[j]))) ==>
      OrChain(d, keys) == Get(d, keys[i])
    ensures !Truthy(OrChain(d, keys)) ==> OrChain(d, keys) == Get(d, keys[|keys| - 1])
    decreases |keys|
  {
    if |keys| > 1 && !Truthy(Get(d, keys[0])) {
      OrChainFirst(d, keys[1..]);
      forall i | 0 <= i < |keys| && Truthy(Get(d, keys[i])) && (forall j :: 0 <= j < i ==> !Truthy(Get(d, keys[j])))
        ensures OrChain(d, keys) == Get(d, keys[i])
      {
        assert i > 0;
        assert keys[i] == keys[1..][i - 1];
        forall j | 0 <= j < i - 1
          ensures !Truthy(Get(d, keys[1..][j]))
        {
          assert keys[1..][j] == keys[j + 1];
        }
      }
      if exists i :: 0 <= i < |keys| && Truthy(Get(d, keys[i])) {
        var i :| 0 <= i < |keys| && Truthy(Get(d, keys[i]));
        assert i > 0 && keys[1..][i - 1] == keys[i];
      }
    }
  }

  const NoneText: string := "None"
  const TrueText: string := "True"
  const FalseText: string := "False"
  const ListText: string := "[...]"
  const ObjectText: string := "{...}"

  /** `str(v)`. A list or dict prints as Python's repr, which the model
      does not spell out; it stands for it with a fixed non-blank marker. */
  function Repr(v: Value): string {
    match v
    case Null => NoneText
    case Bool(b) => if b then TrueText else FalseText
    case Int(i) => IntToString(i)
    case Str(s) => s
    case List(_) => ListText
    case Object(_) => ObjectText
  }

  /** A list or a dict never prints blank. */
  lemma ReprContainer(v: Value)
    requires v.List? || v.Object?
    ensures !Blank(Repr(v))
  {
    assert Repr(v)[0] == (if v.List? then '[' else '{');
    NotBlankAtStart(Repr(v));
  }

  /** `str(v).strip() if v is not None else ''`, the normaliser used on
      identifiers, subjects and e-mails; "" stands for the `None` it maps a
      blank to. */
  function Clean(v: Value): (r: string)
    ensures v.Null? ==> r == ""
    ensures v.Str? ==> r == Strip(v.s)
  {
    if v.Null? then "" else Strip(Repr(v))
  }

  /** A cleaned value is free of outer whitespace. */
  lemma CleanStripped(v: Value)
    ensures Strip(Clean(v)) == Clean(v)
  {
    if !v.Null? {
      StripIdempotent(Repr(v));
    }
  }
}
