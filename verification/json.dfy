/** The JSON values the workers exchange with the language model, and the
    extraction of the JSON candidate from the model's free-text answer.
    Parsing (`json.loads`) and serialising (`json.dumps`) are library calls
    and stay uninterpreted: callers receive them as function parameters. */
module Json {
  import opened PyStr

  /** A decoded JSON value. Numbers keep their literal text: the model never
      does arithmetic on them. */
  datatype Value =
    | Null
    | Bool(b: bool)
    | Num(literal: string)
    | Str(s: string)
    | Arr(items: seq<Value>)
    | Obj(fields: map<string, Value>)

  /** The outcome of `json.loads`: a value, or the message of the raised
      decoding error. */
  datatype Decoded = Decoded(value: Value) | DecodeError(message: string)

  /** `type(v).__name__` for a decoded value; a JSON number decodes to an
      `int` unless its literal has a fraction or an exponent. */
  function TypeName(v: Value): string {
    match v
    case Null => "NoneType"
    case Bool(_) => "bool"
    case Num(lit) => if '.' in lit || 'e' in lit || 'E' in lit then "float" else "int"
    case Str(_) => "str"
    case Arr(_) => "list"
    case Obj(_) => "dict"
  }

  /** `d.get(key)`: a missing key reads as `None`. */
  function Get(d: map<string, Value>, key: string): (v: Value)
    ensures key !in d ==> v == Null
    ensures key in d ==> v == d[key]
  {
    if key in d then d[key] else Null
  }

  /** `d.get(key, default)`: the default applies only to a missing key, not
      to a key holding `null`. */
  function GetOr(d: map<string, Value>, key: string, default: Value): (v: Value)
    ensures key !in d ==> v == default
    ensures key in d ==> v == d[key]
  {
    if key in d then d[key] else default
  }

  /** `text[text.find('{'):text.rfind('}') + 1]`, the slice both workers
      hand to `json.loads`. */
  function BraceSpan(text: string): (span: string)
    // A '{' at or before the last '}': from the first '{' to the last '}'.
    ensures '{' in text && '}' in text && Find(text, '{') <= RFind(text, '}') ==>
      span == text[Find(text, '{')..RFind(text, '}') + 1]
      && span[0] == '{' && span[|span| - 1] == '}'
    // No '}' at all: nothing.
    ensures '}' !in text ==> span == []
    // Every '}' before the first '{': nothing.
    ensures '{' in text && '}' in text && RFind(text, '}') < Find(text, '{') ==> span == []
    // No '{': `find` gives -1, which Python reads as the last index, so the
    // span is the final character when that is '}', and empty otherwise.
    ensures '{' !in text ==>
      span == (if |text| > 0 && text[|text| - 1] == '}' then "}" else [])
  {
    Slice(text, Find(text, '{'), RFind(text, '}') + 1)
  }
}
