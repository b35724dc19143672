/** The inventory payload the collector builds: a Ruby hash of JSON-like
    values.  Symbol keys (`:ipmi`) and string keys ('BASEBOARD_VENDOR') are
    both written as strings, as they are once the payload is serialised. */
module Payload {
  import opened Wrappers
  import opened OrderedHash

  datatype Value =
    | Nil
    | Str(s: string)
    | Int(i: int)
    | Bool(b: bool)
    | List(items: seq<Value>)
    | Obj(fields: Hash<string, Value>)

  type Object = Hash<string, Value>

  /** A Ruby string-or-nil. */
  function OptStr(o: Option<string>): (v: Value)
    ensures o.None? <==> v == Nil
    ensures o.Some? ==> v == Str(o.value)
  {
    match o
    case None => Nil
    case Some(s) => Str(s)
  }

  /** An array of strings. */
  function Strs(ss: seq<string>): (v: Value)
    ensures v.List? && |v.items| == |ss|
    ensures forall i :: 0 <= i < |ss| ==> v.items[i] == Str(ss[i])
  {
    List(seq(|ss|, i requires 0 <= i < |ss| => Str(ss[i])))
  }
}
