/**
 * `JSONProcessor.validate`: the key-presence check applied to a payload
 * before it is processed.  The payload is a map from field names to values.
 */
module JsonProcessor {

  /** The fields every payload must carry, in the order they are checked. */
  const RequiredFields: seq<string> := ["id", "type", "payload"]

  /** `all(field in data for field in fields)`, checked left to right. */
  function AllPresent<V>(fields: seq<string>, data: map<string, V>): (ok: bool)
    decreases |fields|
    ensures ok <==> forall i :: 0 <= i < |fields| ==> fields[i] in data
  {
    if |fields| == 0 then true
    else fields[0] in data && AllPresent(fields[1..], data)
  }

  /** `validate(data)`: an empty payload is rejected before any field is looked at. */
  function Validate<V>(data: map<string, V>): (ok: bool)
    ensures ok <==> "id" in data && "type" in data && "payload" in data
    ensures |data| == 0 ==> !ok
  {
    if |data| == 0 then false
    else AllPresent(RequiredFields, data)
  }

  /** Fields beyond the required ones never change the verdict. */
  lemma ExtraKeysIgnored<V>(data: map<string, V>, extra: map<string, V>)
    requires extra.Keys !! {"id", "type", "payload"}
    ensures Validate(data + extra) == Validate(data)
  {
  }

  /** A payload lacking any one required field is rejected. */
  lemma MissingFieldRejected<V>(data: map<string, V>, field: string)
    requires field in RequiredFields
    requires field !in data
    ensures !Validate(data)
  {
  }

}
