/** The two map functions the test plugs into the iteration: `IdDuplicator`, which
    turns a vertex record `(id)` into the initial solution-set entry `(id, id)` by
    copying field 0 into field 1 in place, and `DummyMapper`, which forwards its record
    unchanged. A record is mutable and the collector emits what it holds when it is
    collected. */
module Mappers {
  import opened JavaText

  /** A field of a record in this test: a `PactLong`, or a field that was never set. */
  datatype Value = Null | Long(n: int)

  /** The fields after `setField(pos, v)`: field `pos` holds `v`, a record too short for
      `pos` grows to `pos + 1` fields with the new ones in between unset, and every other
      field keeps its value. */
  function WithField(fields: seq<Value>, pos: nat, v: Value): (r: seq<Value>)
    ensures |r| == if pos < |fields| then |fields| else pos + 1
    ensures r[pos] == v
    ensures forall i :: 0 <= i < |r| && i != pos ==> r[i] == if i < |fields| then fields[i] else Null
  {
    if pos < |fields| then fields[pos := v] else fields + seq(pos - |fields|, _ => Null) + [v]
  }

  /** A record whose field list is updated in place. */
  class PactRecord {
    var fields: seq<Value>

    constructor (fields: seq<Value>)
      ensures this.fields == fields
    {
      this.fields := fields;
    }

    /** `getField(pos, PactLong.class)`; `None` stands for the `IndexOutOfBoundsException`
        thrown for a field beyond the record's end. */
    method GetField(pos: nat) returns (v: Option<Value>)
      ensures pos < |fields| <==> v.Some?
      ensures v.Some? ==> v.value == fields[pos]
    {
      if pos < |fields| {
        v := Some(fields[pos]);
      } else {
        v := None;
      }
    }

    method SetField(pos: nat, v: Value)
      modifies this
      ensures fields == WithField(old(fields), pos, v)
    {
      fields := WithField(fields, pos, v);
    }
  }

  /** The output of a map function: the field lists of the records collected so far, in order. */
  class Collector {
    var emitted: seq<seq<Value>>

    constructor ()
      ensures emitted == []
    {
      emitted := [];
    }

    method Collect(record: PactRecord)
      modifies this
      ensures emitted == old(emitted) + [record.fields]
    {
      emitted := emitted + [record.fields];
    }
  }

  /** How a map call ends: normally, or with the exception `getField` throws on a record
      without a field 0. */
  datatype MapOutcome = Done | IndexOutOfBounds

  /** The record `IdDuplicator` produces: field 1 set to the value of field 0. */
  function DuplicateId(fields: seq<Value>): (r: seq<Value>)
    requires |fields| >= 1
  {
    WithField(fields, 1, fields[0])
  }

  /** Field 0 is kept, field 1 now equals it, all later fields are kept, and a one-field
      record grows to two; duplicating again changes nothing. */
  lemma DuplicateIdProperties(fields: seq<Value>)
    requires |fields| >= 1
    ensures var r := DuplicateId(fields);
      |r| == (if |fields| >= 2 then |fields| else 2) &&
      r[0] == fields[0] && r[1] == fields[0] &&
      (forall i :: 2 <= i < |fields| ==> r[i] == fields[i]) &&
      DuplicateId(r) == r
  {
    var r := DuplicateId(fields);
    assert r[1] == r[0];
    if |fields| >= 2 {
      assert r == fields[1 := fields[0]];
    } else {
      assert r == [fields[0], fields[0]];
    }
    assert r[1 := r[0]] == r;
  }

  /** In the test a vertex record holds only its id, so the mapped record is `(id, id)`:
      every vertex starts in the component named by its own id. */
  lemma VertexStartsInOwnComponent(id: int)
    ensures DuplicateId([Long(id)]) == [Long(id), Long(id)]
  {
    assert [Long(id)] + seq(0, _ => Null) + [Long(id)] == [Long(id), Long(id)];
  }

  class IdDuplicator {
    /** `IdDuplicator.map`: copies field 0 into field 1 of the record itself and collects
        it once; nothing is collected when field 0 does not exist. */
    method Map(record: PactRecord, out: Collector) returns (outcome: MapOutcome)
      modifies record, out
      ensures outcome == Done <==> |old(record.fields)| >= 1
      ensures outcome == Done ==>
        record.fields == DuplicateId(old(record.fields)) &&
        out.emitted == old(out.emitted) + [record.fields]
      ensures outcome == IndexOutOfBounds ==> record.fields == old(record.fields) && out.emitted == old(out.emitted)
    {
      var id := record.GetField(0);
      if id.None? {
        return IndexOutOfBounds;
      }
      record.SetField(1, id.value);
      out.Collect(record);
      return Done;
    }
  }

  class DummyMapper {
    /** `DummyMapper.map`: collects its record once, unchanged. */
    method Map(record: PactRecord, out: Collector)
      modifies out
      ensures out.emitted == old(out.emitted) + [record.fields]
      ensures unchanged(record)
    {
      out.Collect(record);
    }
  }
}
