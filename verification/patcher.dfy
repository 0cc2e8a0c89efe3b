/**
 * The generic attribute patcher `update_sql_entity` (src/utils.py:28-40): it writes each
 * (attribute, value) pair of an ordered mapping onto an ORM object, in order, skipping
 * `None` values, and raises `ValueError` on an empty mapping or on a name the object does
 * not have. Writes made before the failing name stay on the object.
 */
module Patcher {
  import opened Wrappers
  import opened Exceptions
  import opened Models

  /** One entry of the mapping: attribute name and value (`Null` is Python's `None`). */
  type Item = (string, Value)

  /** The object after the call, and the exception the call raised, if any. */
  datatype Outcome = Outcome(entity: Entity, raised: Option<Error>)

  const NoDataMessage := "No data to update entity"

  function MissingAttribute(m: Mapping, key: string): Error {
    ValueError("The attribute " + key + " is missing from the model " + m.tableName)
  }

  /** Every name in the mapping is listed by `dir()` of the object. */
  predicate AllKnown(m: Mapping, data: seq<Item>) {
    forall i | 0 <= i < |data| :: data[i].0 in m.dir
  }

  /** The position of the first name `dir()` does not list. */
  function FirstUnknown(m: Mapping, data: seq<Item>): (i: nat)
    requires !AllKnown(m, data)
    ensures i < |data| && data[i].0 !in m.dir
    ensures AllKnown(m, data[..i])
  {
    if data[0].0 !in m.dir then 0
    else
      assert !AllKnown(m, data[1..]) by {
        var j :| 0 <= j < |data| && data[j].0 !in m.dir;
        assert data[1..][j - 1] == data[j];
      }
      var k := FirstUnknown(m, data[1..]);
      assert forall t | 1 <= t < k + 1 :: data[t] == data[1..][..k][t - 1];
      k + 1
  }

  /** Whether the mapping gives `a` a value other than `None`. */
  predicate Names(data: seq<Item>, a: string) {
    exists i | 0 <= i < |data| :: data[i].0 == a && !data[i].1.Null?
  }

  /** The value of the last entry that gives `a` a value other than `None`. */
  function LastNonNull(data: seq<Item>, a: string): (r: Option<Value>)
    ensures r.Some? <==> Names(data, a)
    ensures r.Some? ==> !r.value.Null?
  {
    if data == [] then None
    else match LastNonNull(data[1..], a)
      case Some(v) =>
        assert data[1..][0] == data[1];
        Some(v)
      case None =>
        assert forall i | 1 <= i < |data| :: data[i] == data[1..][i - 1];
        if data[0].0 == a && !data[0].1.Null? then Some(data[0].1) else None
  }

  function NamedKeys(data: seq<Item>): set<string> {
    set i | 0 <= i < |data| && !data[i].1.Null? :: data[i].0
  }

  /**
   * The reference for what the writes leave behind: every attribute the mapping gives a
   * non-`None` value ends with the last such value, and every other attribute is as it was.
   */
  function Overlay(e: Entity, data: seq<Item>): (r: Entity)
    ensures r.Keys == e.Keys + NamedKeys(data)
  {
    map a | a in e.Keys + NamedKeys(data) ::
      if LastNonNull(data, a).Some? then LastNonNull(data, a).value else e[a]
  }

  /** The reference at one attribute the object already has. */
  lemma OverlayAt(e: Entity, data: seq<Item>, a: string)
    requires a in e
    ensures a in Overlay(e, data)
    ensures Overlay(e, data)[a] == match LastNonNull(data, a) case Some(v) => v case None => e[a]
  {
  }

  /** The loop of `update_sql_entity`, entry by entry. */
  function ApplyItems(m: Mapping, e: Entity, data: seq<Item>): (r: Outcome)
    ensures r.raised.None? <==> AllKnown(m, data)
    ensures r.raised.Some? ==> r.raised.value == MissingAttribute(m, data[FirstUnknown(m, data)].0)
    decreases |data|
  {
    if data == [] then Outcome(e, None)
    else
      var (key, value) := data[0];
      if key !in m.dir then Outcome(e, Some(MissingAttribute(m, key)))
      else
        assert AllKnown(m, data) <==> AllKnown(m, data[1..]) by {
          assert forall i | 1 <= i < |data| :: data[i] == data[1..][i - 1];
        }
        ApplyItems(m, if value.Null? then e else e[key := value], data[1..])
  }

  /** The names given a value are those of the tail plus, unless it is `None`, the head's. */
  lemma NamedKeysStep(data: seq<Item>)
    requires data != []
    ensures NamedKeys(data) == NamedKeys(data[1..]) + (if data[0].1.Null? then {} else {data[0].0})
  {
    assert forall i | 1 <= i < |data| :: data[i] == data[1..][i - 1];
    forall a | a in NamedKeys(data) ensures a in NamedKeys(data[1..]) + (if data[0].1.Null? then {} else {data[0].0}) {
      var i :| 0 <= i < |data| && !data[i].1.Null? && data[i].0 == a;
      if i > 0 {
        assert data[1..][i - 1] == data[i];
      }
    }
  }

  /** The last value given to `a` comes from the tail when the tail gives one, else from the head. */
  lemma LastNonNullStep(data: seq<Item>, a: string)
    requires data != []
    ensures LastNonNull(data, a) ==
      if LastNonNull(data[1..], a).Some? then LastNonNull(data[1..], a)
      else if data[0].0 == a && !data[0].1.Null? then Some(data[0].1) else None
  {
  }

  /** The entity after writing the first entry, if it gives a value. */
  function WriteHead(e: Entity, data: seq<Item>): Entity
    requires data != []
  {
    if data[0].1.Null? then e else e[data[0].0 := data[0].1]
  }

  /** One attribute of the reference, computed after writing the first entry. */
  lemma OverlayStepAt(e: Entity, data: seq<Item>, a: string)
    requires data != [] && a in Overlay(e, data)
    ensures a in Overlay(WriteHead(e, data), data[1..])
    ensures Overlay(WriteHead(e, data), data[1..])[a] == Overlay(e, data)[a]
  {
    NamedKeysStep(data);
    LastNonNullStep(data, a);
  }

  /** Writing the first entry, then the rest, leaves what the reference says for all of them. */
  lemma OverlayStep(e: Entity, data: seq<Item>)
    requires data != []
    ensures Overlay(WriteHead(e, data), data[1..]) == Overlay(e, data)
  {
    var lhs := Overlay(WriteHead(e, data), data[1..]);
    var rhs := Overlay(e, data);
    NamedKeysStep(data);
    assert lhs.Keys == rhs.Keys;
    forall a | a in rhs ensures lhs[a] == rhs[a] {
      OverlayStepAt(e, data, a);
    }
  }

  /** The writes made before the loop stops are exactly the reference applied to the entries
      it got through: all of them, or those before the first unknown name. */
  lemma {:induction false} ApplyItemsIsOverlay(m: Mapping, e: Entity, data: seq<Item>)
    ensures AllKnown(m, data) ==> ApplyItems(m, e, data).entity == Overlay(e, data)
    ensures !AllKnown(m, data) ==>
      ApplyItems(m, e, data).entity == Overlay(e, data[..FirstUnknown(m, data)])
    decreases |data|
  {
    if data == [] {
      assert Overlay(e, data) == e;
    } else {
      var (key, value) := data[0];
      if key !in m.dir {
        assert data[..FirstUnknown(m, data)] == [];
        assert Overlay(e, []) == e;
      } else {
        var e' := if value.Null? then e else e[key := value];
        assert forall i | 1 <= i < |data| :: data[i] == data[1..][i - 1];
        ApplyItemsIsOverlay(m, e', data[1..]);
        if AllKnown(m, data) {
          OverlayStep(e, data);
        } else {
          var k := FirstUnknown(m, data);
          var k' := FirstUnknown(m, data[1..]);
          assert k == k' + 1;
          var prefix := data[..k];
          assert prefix != [] && prefix[0] == data[0];
          assert prefix[1..] == data[1..][..k'];
          OverlayStep(e, prefix);
        }
      }
    }
  }

  /** `update_sql_entity`: the object after the call and the exception raised. */
  function UpdateSqlEntity(m: Mapping, e: Entity, data: seq<Item>): (r: Outcome)
    ensures data == [] ==> r == Outcome(e, Some(ValueError(NoDataMessage)))
    ensures data != [] ==> (r.raised.None? <==> AllKnown(m, data))
    ensures r.raised.None? ==> r.entity == Overlay(e, data)
    ensures data != [] && !AllKnown(m, data) ==>
      && r.raised == Some(MissingAttribute(m, data[FirstUnknown(m, data)].0))
      && r.entity == Overlay(e, data[..FirstUnknown(m, data)])
  {
    if data == [] then Outcome(e, Some(ValueError(NoDataMessage)))
    else
      ApplyItemsIsOverlay(m, e, data);
      ApplyItems(m, e, data)
  }

  /** No two entries share a name, as in a Python `dict`. */
  predicate DistinctKeys(data: seq<Item>) {
    forall i, j | 0 <= i < j < |data| :: data[i].0 != data[j].0
  }

  /** With distinct names the reference reads entry by entry: a non-`None` value is written,
      a `None` value leaves the attribute as it was. */
  lemma {:induction false} LastNonNullOfDict(data: seq<Item>, i: nat)
    requires DistinctKeys(data)
    requires i < |data|
    ensures LastNonNull(data, data[i].0) == if data[i].1.Null? then None else Some(data[i].1)
    decreases |data|
  {
    var a := data[i].0;
    assert forall t | 1 <= t < |data| :: data[t] == data[1..][t - 1];
    if i == 0 {
      assert !Names(data[1..], a);
    } else {
      LastNonNullOfDict(data[1..], i - 1);
    }
  }

  /** What `update_sql_entity` promises for a `dict` whose names the object has: each name
      with a value is set to it, each name with `None` keeps its old value, every other
      attribute is untouched. */
  lemma UpdateSqlEntityOfDict(m: Mapping, e: Entity, data: seq<Item>)
    requires data != [] && AllKnown(m, data) && DistinctKeys(data)
    ensures var r := UpdateSqlEntity(m, e, data);
      && r.raised.None?
      && (forall i | 0 <= i < |data| && !data[i].1.Null? :: data[i].0 in r.entity && r.entity[data[i].0] == data[i].1)
      && (forall i | 0 <= i < |data| && data[i].1.Null? && data[i].0 in e ::
            data[i].0 in r.entity && r.entity[data[i].0] == e[data[i].0])
      && (forall a | a in e && !Names(data, a) :: a in r.entity && r.entity[a] == e[a])
      && (forall a | a in r.entity :: a in e || Names(data, a))
  {
    forall i | 0 <= i < |data| {
      LastNonNullOfDict(data, i);
    }
  }
}
