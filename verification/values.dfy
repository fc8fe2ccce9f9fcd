/** Token and context values: the objects the engine passes around as
    `object`, as a closed union over the types the kinds read and write. */
module Values {
  import opened Wrappers
  import opened Numbers
  import opened Strings

  datatype Value =
    | VStr(s: string)
    | VInt(i: Int32)
    | VLong(l: Int64)
    | VDec(d: real)              // System.Decimal, compared numerically
    | VStrs(ss: seq<string>)     // a string[] stored in the context
    | VInts(ints: seq<Int32>)    // an int[]
    | VLongs(ls: seq<Int64>)     // a long[]
    | VDecs(ds: seq<real>)       // a decimal[]
    | VOther(typeName: string)   // an object of a type no kind reads

  /** `value is string`, giving the string. */
  function AsString(v: Value): (r: Option<string>)
    ensures r.Some? <==> v.VStr?
    ensures r.Some? ==> VStr(r.value) == v
  {
    if v.VStr? then Some(v.s) else None
  }

  function AsInt(v: Value): (r: Option<Int32>)
    ensures r.Some? <==> v.VInt?
    ensures r.Some? ==> VInt(r.value) == v
  {
    if v.VInt? then Some(v.i) else None
  }

  function AsLong(v: Value): (r: Option<Int64>)
    ensures r.Some? <==> v.VLong?
    ensures r.Some? ==> VLong(r.value) == v
  {
    if v.VLong? then Some(v.l) else None
  }

  function AsDecimal(v: Value): (r: Option<real>)
    ensures r.Some? <==> v.VDec?
    ensures r.Some? ==> VDec(r.value) == v
  {
    if v.VDec? then Some(v.d) else None
  }

  /** `value as string[] ?? new string[0]` on a variable that may be null. */
  function StringsOrEmpty(v: Option<Value>): (r: seq<string>)
    ensures v.Some? && v.value.VStrs? ==> r == v.value.ss
    ensures !(v.Some? && v.value.VStrs?) ==> r == []
  {
    if v.Some? && v.value.VStrs? then v.value.ss else []
  }

  function IntsOrEmpty(v: Option<Value>): (r: seq<Int32>)
    ensures v.Some? && v.value.VInts? ==> r == v.value.ints
    ensures !(v.Some? && v.value.VInts?) ==> r == []
  {
    if v.Some? && v.value.VInts? then v.value.ints else []
  }

  function LongsOrEmpty(v: Option<Value>): (r: seq<Int64>)
    ensures v.Some? && v.value.VLongs? ==> r == v.value.ls
    ensures !(v.Some? && v.value.VLongs?) ==> r == []
  {
    if v.Some? && v.value.VLongs? then v.value.ls else []
  }

  function DecimalsOrEmpty(v: Option<Value>): (r: seq<real>)
    ensures v.Some? && v.value.VDecs? ==> r == v.value.ds
    ensures !(v.Some? && v.value.VDecs?) ==> r == []
  {
    if v.Some? && v.value.VDecs? then v.value.ds else []
  }

  /** `object.ToString()` for the values a regex kind inspects. */
  function ValueToString(v: Value): string {
    match v
    case VStr(s) => s
    case VInt(i) => IntToString(i)
    case VLong(l) => IntToString(l)
    case _ => []
  }
}

/** The services the model does not implement, passed in as parameters. */
module Env {
  import opened Wrappers

  datatype Oracles = Oracles(
    isMatch: (string, string) -> bool,                   // Regex(pattern).IsMatch(text): unanchored search
    isValidPattern: string -> bool,                      // new Regex(pattern) does not throw
    parseDecimal: string -> Option<real>,                // decimal parsing in the current culture
    parseJsonObject: string -> Option<seq<(string, string)>>, // JObject.Parse: each key with its value's ToString(), in document order
    parseJsonArray: string -> Option<seq<string>>)       // a JSON array of scalars, each element's text
}
