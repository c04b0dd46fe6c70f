/**
  CBOR data items as values. The byte-level reader and writer are not part
  of this model: they appear as function parameters of type Reader and
  Writer wherever the source serialises or parses.
*/
module Cbor {
  import opened Wrappers
  import opened Bytes

  datatype SimpleValue = False | True | Null | Undefined

  /**
    A decoded CBOR item. An integer is "unsigned" (major type 0) exactly
    when it is non-negative, so one constructor covers both major types.
  */
  datatype CborValue =
    | Integer(integer: int)
    | Bytestring(bytes: seq<byte>)
    | Text(text: string)
    | Array(items: seq<CborValue>)
    | Map(entries: map<CborValue, CborValue>)
    | Simple(simple: SimpleValue)

  type Reader = seq<byte> -> Option<CborValue>
  type Writer = CborValue -> seq<byte>

  /** The reader gives back `v` from what the writer made of it. */
  predicate ReadsBack(read: Reader, write: Writer, v: CborValue)
  {
    read(write(v)) == Some(v)
  }

  predicate IsUnsigned(v: CborValue)
  {
    v.Integer? && v.integer >= 0
  }

  /** The entry of `m` under the integer key `key`, as a map lookup by `cbor::Value(key)` finds it. */
  function Find(m: map<CborValue, CborValue>, key: int): (r: Option<CborValue>)
    ensures r.Some? <==> Integer(key) in m
    ensures r.Some? ==> r.value == m[Integer(key)]
  {
    if Integer(key) in m then Some(m[Integer(key)]) else None
  }
}
