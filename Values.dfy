/**
  The Python values that flow through the script: the flattened bibliographic
  record and the metadata dictionary.  A value is `None`, a string, or a list
  whose entries are strings or one-key dictionaries `{tag: text}`.
*/
module Values {
  import opened Wrappers

  /** An entry of a list value: a string, or a one-key dictionary `{key: text}`. */
  datatype Item = Plain(text: string) | Keyed(key: string, text: string)

  datatype Value = Null | Text(s: string) | List(items: seq<Item>)

  /** A Python dictionary from field names to values. */
  type Record = map<string, Value>

  /** The exceptions the script can raise on a malformed record. */
  datatype PyError = AttributeError(attribute: string) | KeyError(key: string) | TypeError | NameError

  type Outcome<T> = Result<T, PyError>

  /** Python truthiness: `None`, `''` and `[]` are false, everything else is true. */
  predicate Truthy(v: Value) {
    match v
    case Null => false
    case Text(s) => s != ""
    case List(items) => items != []
  }

  /** `d.get(k)`: the value under `k`, or `None`. */
  function Get(d: Record, k: string): (v: Value)
    ensures k in d ==> v == d[k]
    ensures k !in d ==> v.Null?
  {
    if k in d then d[k] else Null
  }

  /** `'...'.format(v)`, `str(v)` and `unicode(v)`. */
  function Format(v: Value): string {
    match v
    case Null => "None"
    case Text(s) => s
    case List(items) => "[" + ItemsRepr(items) + "]"
  }

  function ItemRepr(item: Item): string {
    match item
    case Plain(t) => "'" + t + "'"
    case Keyed(k, t) => "{'" + k + "': '" + t + "'}"
  }

  function ItemsRepr(items: seq<Item>): string {
    if |items| == 0 then ""
    else if |items| == 1 then ItemRepr(items[0])
    else ItemRepr(items[0]) + ", " + ItemsRepr(items[1..])
  }
}
