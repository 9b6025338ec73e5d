/**
 * `Coil`: a register definition together with its current logical value.
 * Assigning `raw_value` decodes into the value, assigning `value`
 * validates it, and reading `raw_value` encodes the value; all three go
 * through the pure codec.
 */
module Coils {
  import opened Words
  import opened Codec

  /** How an assignment ended: it took effect, or it raised an error. */
  datatype Outcome = Pass | Fail(error: Error)

  class Coil {
    /** The static definition: address, name, title, size, factor, bounds, mappings, flags, other. */
    const definition: Definition
    /** The current logical value; none until something has been assigned. */
    var value: Option<Value>

    /**
     * The mapping is a dictionary, and whatever value is held is one the
     * register can hold.
     */
    ghost predicate Valid()
      reads this
    {
      DistinctKeys(definition.mappings) &&
      (value.Some? ==> Conforms(definition, value.value))
    }

    /**
     * `Coil(address, name, title, size, factor=1, min=None, max=None,
     * mappings=None, write=False, word_swap=True, **other)`.
     */
    constructor (address: nat, name: string, title: string, size: WidthClass,
                 factor: Pos := 1, rawMin: Option<int> := None, rawMax: Option<int> := None,
                 mappings: seq<Entry> := [], write: bool := false, wordSwap: bool := true,
                 other: map<string, string> := map[])
      requires DistinctKeys(mappings)
      ensures Valid()
      ensures definition == Configure(address, name, title, size, factor, rawMin, rawMax,
                                      mappings, write, wordSwap, other)
      ensures value == None
    {
      definition := Configure(address, name, title, size, factor, rawMin, rawMax,
                              mappings, write, wordSwap, other);
      value := None;
    }

    /**
     * Assigning `raw_value`: on success the decoded value is stored; a
     * decode error leaves the stored value as it was.
     */
    method SetRaw(raw: seq<Byte>) returns (outcome: Outcome)
      requires Valid()
      requires |raw| >= definition.size.Width()
      modifies this
      ensures Valid()
      ensures outcome.Pass? <==> Decode(definition, raw).Ok?
      ensures outcome.Pass? ==> value == Some(Decode(definition, raw).value)
      ensures outcome.Fail? ==> outcome.error == DecodeError(RawInt(definition, raw))
      ensures outcome.Fail? ==> value == old(value)
    {
      var r := Decode(definition, raw);
      if r.Ok? {
        value := Some(r.value);
        outcome := Pass;
      } else {
        outcome := Fail(r.error);
      }
    }

    /**
     * Assigning `value`: on success the validated (upper-cased) value is
     * stored; a rejected value leaves the stored value as it was.
     */
    method SetValue(v: Value) returns (outcome: Outcome)
      requires Valid()
      modifies this
      ensures Valid()
      ensures outcome.Pass? <==> Assign(definition, v).Ok?
      ensures outcome.Pass? ==> value == Some(Assign(definition, v).value)
      ensures outcome.Fail? ==> outcome.error == Rejected && value == old(value)
    {
      var r := Assign(definition, v);
      if r.Ok? {
        value := Some(r.value);
        outcome := Pass;
      } else {
        outcome := Fail(r.error);
      }
    }

    /**
     * Reading `raw_value`: the stored value encoded into four bytes, or an
     * encode error when it does not fit the register (or nothing is stored).
     */
    method GetRaw() returns (r: Result<seq<Byte>>)
      requires Valid()
      ensures value.None? ==> r == Err(EncodeError)
      ensures value.Some? ==> r == Encode(definition, value.value)
      ensures r.Ok? ==> |r.value| == 4
      ensures r.Err? ==> r.error == EncodeError
    {
      if value.None? {
        r := Err(EncodeError);
      } else {
        r := Encode(definition, value.value);
      }
    }
  }
}
