/**
 * The expected-state comparison of `checkState` and the `RemoteState`
 * constants. A remote state is a record of optional-bool fields that may also
 * hold the "don't care" sentinel `'N/A'`; its shape depends on the transport
 * the process runs on, chosen once by `config.UseZStack`.
 */
module RemoteStates {
  import opened Wrappers

  /** One field value of a `RemoteState`: `True`/`False`, `None`, or the sentinel `'N/A'`. */
  datatype Slot = Flag(b: bool) | Unset | NotApplicable

  /** The transport variant: RAET stacks (`Stack`) or ZeroMQ stacks (`ZStack`). */
  datatype Variant = Raet | ZStack

  /** The variant `config.UseZStack` selects. */
  function VariantOf(useZStack: bool): (v: Variant)
    ensures v.ZStack? <==> useZStack
  {
    if useZStack then ZStack else Raet
  }

  /** `RemoteState` in either shape: three fields under RAET, one under ZStack. */
  datatype RemoteState =
    | RaetState(joined: Slot, allowed: Slot, alived: Slot)
    | ZStackState(isConnected: Slot)

  /** The shape a state has. */
  function ShapeOf(st: RemoteState): Variant
  {
    if st.RaetState? then Raet else ZStack
  }

  /** The field names of each shape, in declaration order. */
  function FieldNames(v: Variant): seq<string>
  {
    match v
    case Raet => ["joined", "allowed", "alived"]
    case ZStack => ["isConnected"]
  }

  /** `state._asdict().items()`: the field names of the state's shape, each with its value. */
  function Items(st: RemoteState): (r: seq<(string, Slot)>)
    ensures |r| == |FieldNames(ShapeOf(st))|
    ensures forall i :: 0 <= i < |r| ==> r[i].0 == FieldNames(ShapeOf(st))[i]
  {
    match st
    case RaetState(j, a, l) => [("joined", j), ("allowed", a), ("alived", l)]
    case ZStackState(c) => [("isConnected", c)]
  }

  /** `set(state._asdict().items())`. */
  function ItemSet(st: RemoteState): set<(string, Slot)>
  {
    set i | 0 <= i < |Items(st)| :: Items(st)[i]
  }

  /** `RemoteState(**fields)` for a dictionary holding every field of shape `v`. */
  function FromFields(v: Variant, fields: map<string, Slot>): (st: RemoteState)
    requires forall k :: k in FieldNames(v) ==> k in fields
    ensures ShapeOf(st) == v
    ensures forall i :: 0 <= i < |Items(st)| ==> Items(st)[i].1 == fields[Items(st)[i].0]
  {
    match v
    case Raet => RaetState(fields["joined"], fields["allowed"], fields["alived"])
    case ZStack => ZStackState(fields["isConnected"])
  }

  /** The attributes of an observed remote: attribute name to its `Optional[bool]` value. */
  type Attributes = map<string, Option<bool>>

  /** An observed `Optional[bool]` as a field value. */
  function AsSlot(o: Option<bool>): Slot
  {
    match o
    case Some(b) => Flag(b)
    case None => Unset
  }

  /**
   * The value recorded for one field: the sentinel kept as it is, otherwise
   * the attribute of the same name; `None` when that attribute is missing
   * (reading it raises).
   */
  function Probe(key: string, expected: Slot, obj: Attributes): Option<Slot>
  {
    if expected == NotApplicable then Some(NotApplicable)
    else if key in obj then Some(AsSlot(obj[key]))
    else None
  }

  /** Position `i` holds the first field, in order, whose attribute has to be read and is missing. */
  predicate MissingFirstAt(items: seq<(string, Slot)>, obj: Attributes, i: int)
  {
    && 0 <= i < |items|
    && Probe(items[i].0, items[i].1, obj).None?
    && forall k :: 0 <= k < i ==> Probe(items[k].0, items[k].1, obj).Some?
  }

  /** The first field, in order, whose attribute has to be read and is missing. */
  function FirstMissing(items: seq<(string, Slot)>, obj: Attributes): (r: Option<string>)
    ensures r.None? <==> forall i :: 0 <= i < |items| ==> Probe(items[i].0, items[i].1, obj).Some?
    ensures r.Some? ==> exists i :: MissingFirstAt(items, obj, i) && items[i].0 == r.value
  {
    if items == [] then None
    else if Probe(items[0].0, items[0].1, obj).None? then Some(items[0].0)
    else
      var r := FirstMissing(items[1..], obj);
      assert r.Some? ==> exists i :: MissingFirstAt(items, obj, i) && items[i].0 == r.value by {
        if r.Some? {
          var i :| MissingFirstAt(items[1..], obj, i) && items[1..][i].0 == r.value;
          assert forall k :: 1 <= k < i + 1 ==> items[k] == items[1..][k - 1];
          assert MissingFirstAt(items, obj, i + 1);
        }
      }
      r
  }

  /** The state `checkState` rebuilds from the observed remote, once every attribute it needs exists. */
  function Rebuilt(st: RemoteState, obj: Attributes): (actual: RemoteState)
    requires FirstMissing(Items(st), obj).None?
    ensures ShapeOf(actual) == ShapeOf(st)
    ensures forall i :: 0 <= i < |Items(st)| ==>
      Some(Items(actual)[i].1) == Probe(Items(st)[i].0, Items(st)[i].1, obj)
  {
    assert forall i :: 0 <= i < |Items(st)| ==> Probe(Items(st)[i].0, Items(st)[i].1, obj).Some?;
    match st
    case RaetState(j, a, l) =>
      assert Items(st)[0] == ("joined", j) && Items(st)[1] == ("allowed", a) && Items(st)[2] == ("alived", l);
      RaetState(Probe("joined", j, obj).value, Probe("allowed", a, obj).value, Probe("alived", l, obj).value)
    case ZStackState(c) =>
      assert Items(st)[0] == ("isConnected", c);
      ZStackState(Probe("isConnected", c, obj).value)
  }

  /** How `checkState` ends: it passes, its assertion fails with the diagnostic set, or an attribute read raises. */
  datatype Verdict = Passed | Failed(extra: set<(string, Slot)>) | MissingAttribute(name: string)

  /**
   * `checkState`: no expected state passes; otherwise the observed state is
   * rebuilt and must equal the expected one, the diagnostic being the actual
   * items not among the expected ones.
   */
  function CheckStateOutcome(state: Option<RemoteState>, obj: Attributes): Verdict
  {
    match state
    case None => Passed
    case Some(st) =>
      match FirstMissing(Items(st), obj)
      case Some(key) => MissingAttribute(key)
      case None =>
        var actual := Rebuilt(st, obj);
        if actual == st then Passed else Failed(ItemSet(actual) - ItemSet(st))
  }

  /** `checkState`, filling the dictionary of checked items field by field. */
  method CheckState(state: Option<RemoteState>, obj: Attributes) returns (verdict: Verdict)
    ensures verdict == CheckStateOutcome(state, obj)
  {
    if state.None? {
      return Passed;
    }
    var st := state.value;
    var items := Items(st);
    var names := FieldNames(ShapeOf(st));
    assert forall i, k :: 0 <= i < k < |names| ==> names[i] != names[k];
    var checkedItems: map<string, Slot> := map[];
    for i := 0 to |items|
      invariant forall k :: 0 <= k < i ==> Probe(items[k].0, items[k].1, obj).Some?
      invariant forall k :: 0 <= k < i ==>
        items[k].0 in checkedItems && Probe(items[k].0, items[k].1, obj) == Some(checkedItems[items[k].0])
    {
      var (key, s) := items[i];
      if s == NotApplicable {
        checkedItems := checkedItems[key := NotApplicable];
      } else if key !in obj {
        FirstMissingAt(items, obj, i);
        return MissingAttribute(key);
      } else {
        checkedItems := checkedItems[key := AsSlot(obj[key])];
      }
    }
    var actual := FromFields(ShapeOf(st), checkedItems);
    assert actual == Rebuilt(st, obj) by {
      ItemsDetermine(actual, Rebuilt(st, obj));
    }
    if actual == st {
      verdict := Passed;
    } else {
      verdict := Failed(ItemSet(actual) - ItemSet(st));
    }
  }

  /** The first field whose attribute is missing is the one `FirstMissing` names. */
  lemma {:induction false} FirstMissingAt(items: seq<(string, Slot)>, obj: Attributes, i: nat)
    requires i < |items| && Probe(items[i].0, items[i].1, obj).None?
    requires forall k :: 0 <= k < i ==> Probe(items[k].0, items[k].1, obj).Some?
    ensures FirstMissing(items, obj) == Some(items[i].0)
  {
    if i > 0 {
      assert Probe(items[0].0, items[0].1, obj).Some?;
      assert forall k :: 0 <= k < i - 1 ==> items[1..][k] == items[k + 1];
      FirstMissingAt(items[1..], obj, i - 1);
    }
  }

  /** Two states of one shape with the same items are the same state. */
  lemma ItemsDetermine(a: RemoteState, b: RemoteState)
    requires ShapeOf(a) == ShapeOf(b)
    requires forall i :: 0 <= i < |Items(a)| ==> Items(a)[i].1 == Items(b)[i].1
    ensures a == b
  {
    match a
    case RaetState(_, _, _) =>
      assert Items(a)[0].1 == Items(b)[0].1 && Items(a)[1].1 == Items(b)[1].1 && Items(a)[2].1 == Items(b)[2].1;
    case ZStackState(_) =>
      assert Items(a)[0].1 == Items(b)[0].1;
  }

  /** Field names never repeat within a shape. */
  lemma FieldNamesDistinct(v: Variant)
    ensures forall i, k :: 0 <= i < k < |FieldNames(v)| ==> FieldNames(v)[i] != FieldNames(v)[k]
  {
  }

  /** Every field that is not `'N/A'` equals the observed attribute of the same name. */
  predicate Conforms(st: RemoteState, obj: Attributes)
  {
    forall i :: 0 <= i < |Items(st)| && Items(st)[i].1 != NotApplicable ==>
      Items(st)[i].0 in obj && AsSlot(obj[Items(st)[i].0]) == Items(st)[i].1
  }

  /** The observed items that differ from the expected ones, paired with their observed values. */
  function Mismatches(st: RemoteState, obj: Attributes): set<(string, Slot)>
  {
    set i | 0 <= i < |Items(st)| && Items(st)[i].1 != NotApplicable && Items(st)[i].0 in obj
        && AsSlot(obj[Items(st)[i].0]) != Items(st)[i].1
      :: (Items(st)[i].0, AsSlot(obj[Items(st)[i].0]))
  }

  /** Without an expected state the check never fails. */
  lemma NoStateAlwaysPasses(obj: Attributes)
    ensures CheckStateOutcome(None, obj) == Passed
  {
  }

  /**
   * The check passes iff every field that is not `'N/A'` equals the observed
   * attribute of the same name.
   */
  lemma CheckStatePassesIff(st: RemoteState, obj: Attributes)
    ensures CheckStateOutcome(Some(st), obj) == Passed <==> Conforms(st, obj)
  {
    var items := Items(st);
    match FirstMissing(items, obj)
    case Some(key) =>
      var i :| MissingFirstAt(items, obj, i) && items[i].0 == key;
      assert !Conforms(st, obj);
    case None =>
      var actual := Rebuilt(st, obj);
      if Conforms(st, obj) {
        forall i | 0 <= i < |Items(actual)| ensures Items(actual)[i].1 == Items(st)[i].1 {
          assert Some(Items(actual)[i].1) == Probe(items[i].0, items[i].1, obj);
        }
        ItemsDetermine(actual, st);
      }
      if actual == st {
        forall i | 0 <= i < |items| && items[i].1 != NotApplicable
          ensures items[i].0 in obj && AsSlot(obj[items[i].0]) == items[i].1
        {
          assert Some(Items(actual)[i].1) == Probe(items[i].0, items[i].1, obj);
        }
      }
  }

  /**
   * When every attribute the check reads exists, a failure reports exactly the
   * observed items that differ from the expected ones, and that report is
   * empty iff the check passes.
   */
  lemma CheckStateDiagnostic(st: RemoteState, obj: Attributes)
    requires FirstMissing(Items(st), obj).None?
    ensures CheckStateOutcome(Some(st), obj) == Passed <==> Mismatches(st, obj) == {}
    ensures CheckStateOutcome(Some(st), obj) != Passed ==> CheckStateOutcome(Some(st), obj) == Failed(Mismatches(st, obj))
  {
    var items := Items(st);
    var actual := Rebuilt(st, obj);
    FieldNamesDistinct(ShapeOf(st));
    assert ItemSet(actual) - ItemSet(st) == Mismatches(st, obj) by {
      forall p | p in ItemSet(actual) - ItemSet(st) ensures p in Mismatches(st, obj) {
        var i :| 0 <= i < |Items(actual)| && Items(actual)[i] == p;
        assert Some(p.1) == Probe(items[i].0, items[i].1, obj);
      }
      forall p | p in Mismatches(st, obj) ensures p in ItemSet(actual) - ItemSet(st) {
        var i :| 0 <= i < |items| && items[i].1 != NotApplicable && items[i].0 in obj
          && AsSlot(obj[items[i].0]) != items[i].1 && p == (items[i].0, AsSlot(obj[items[i].0]));
        assert Some(Items(actual)[i].1) == Probe(items[i].0, items[i].1, obj);
        assert p == Items(actual)[i];
      }
    }
    CheckStatePassesIff(st, obj);
    if Mismatches(st, obj) == {} {
      forall i | 0 <= i < |items| && items[i].1 != NotApplicable
        ensures items[i].0 in obj
        ensures AsSlot(obj[items[i].0]) == items[i].1 || (items[i].0, AsSlot(obj[items[i].0])) in Mismatches(st, obj)
      {
        assert Probe(items[i].0, items[i].1, obj).Some?;
      }
    }
  }

  /** The check reads no attribute other than those of its fields that are not `'N/A'`. */
  lemma {:induction false} FirstMissingSameReadings(items: seq<(string, Slot)>, obj: Attributes, obj': Attributes)
    requires forall i :: 0 <= i < |items| ==> Probe(items[i].0, items[i].1, obj) == Probe(items[i].0, items[i].1, obj')
    ensures FirstMissing(items, obj) == FirstMissing(items, obj')
  {
    if items != [] {
      assert Probe(items[0].0, items[0].1, obj) == Probe(items[0].0, items[0].1, obj');
      assert forall i :: 0 <= i < |items[1..]| ==> items[1..][i] == items[i + 1];
      FirstMissingSameReadings(items[1..], obj, obj');
    }
  }

  /**
   * A field whose expected value is `'N/A'` never affects the verdict: the
   * observed attribute of that name may be anything, or absent.
   */
  lemma NotApplicableIgnored(st: RemoteState, obj: Attributes, obj': Attributes, i: nat)
    requires i < |Items(st)| && Items(st)[i].1 == NotApplicable
    requires forall key :: key in obj && key != Items(st)[i].0 ==> key in obj' && obj'[key] == obj[key]
    requires forall key :: key in obj' && key != Items(st)[i].0 ==> key in obj
    ensures CheckStateOutcome(Some(st), obj') == CheckStateOutcome(Some(st), obj)
  {
    var items := Items(st);
    FieldNamesDistinct(ShapeOf(st));
    forall k | 0 <= k < |items| ensures Probe(items[k].0, items[k].1, obj) == Probe(items[k].0, items[k].1, obj') {
      if k != i {
        assert items[k].0 != items[i].0;
      }
    }
    FirstMissingSameReadings(items, obj, obj');
    if FirstMissing(items, obj).None? {
      ItemsDetermine(Rebuilt(st, obj), Rebuilt(st, obj'));
    }
  }

  /** `CONNECTED`: every field true, in the shape `config.UseZStack` selects. */
  function Connected(useZStack: bool): (st: RemoteState)
    ensures ShapeOf(st) == VariantOf(useZStack)
    ensures forall i :: 0 <= i < |Items(st)| ==> Items(st)[i].1 == Flag(true)
  {
    match VariantOf(useZStack)
    case Raet => RaetState(Flag(true), Flag(true), Flag(true))
    case ZStack => ZStackState(Flag(true))
  }

  /** `NOT_CONNECTED`: every field `None` under RAET, `isConnected` false under ZStack. */
  function NotConnected(useZStack: bool): (st: RemoteState)
    ensures ShapeOf(st) == VariantOf(useZStack)
    ensures forall i :: 0 <= i < |Items(st)| ==> Items(st)[i].1 == if useZStack then Flag(false) else Unset
  {
    match VariantOf(useZStack)
    case Raet => RaetState(Unset, Unset, Unset)
    case ZStack => ZStackState(Flag(false))
  }

  /** `JOINED_NOT_ALLOWED`: joined and nothing else under RAET, `isConnected` false under ZStack. */
  function JoinedNotAllowed(useZStack: bool): (st: RemoteState)
    ensures ShapeOf(st) == VariantOf(useZStack)
    ensures Items(st)[0].1 == Flag(!useZStack)
    ensures forall i :: 1 <= i < |Items(st)| ==> Items(st)[i].1 == Unset
  {
    match VariantOf(useZStack)
    case Raet => RaetState(Flag(true), Unset, Unset)
    case ZStack => ZStackState(Flag(false))
  }

  /** `JOINED`: joined, the other fields `'N/A'`, under RAET; `isConnected` false under ZStack. */
  function Joined(useZStack: bool): (st: RemoteState)
    ensures ShapeOf(st) == VariantOf(useZStack)
    ensures Items(st)[0].1 == Flag(!useZStack)
    ensures forall i :: 1 <= i < |Items(st)| ==> Items(st)[i].1 == NotApplicable
  {
    match VariantOf(useZStack)
    case Raet => RaetState(Flag(true), NotApplicable, NotApplicable)
    case ZStack => ZStackState(Flag(false))
  }

  /** Checking against `CONNECTED` passes iff every field's attribute is present and true. */
  lemma ConnectedPassesIff(useZStack: bool, obj: Attributes)
    ensures CheckStateOutcome(Some(Connected(useZStack)), obj) == Passed
        <==> forall key :: key in FieldNames(VariantOf(useZStack)) ==> key in obj && obj[key] == Some(true)
  {
    var v := VariantOf(useZStack);
    var st := Connected(useZStack);
    CheckStatePassesIff(st, obj);
    if Conforms(st, obj) {
      forall key | key in FieldNames(v) ensures key in obj && obj[key] == Some(true) {
        var i :| 0 <= i < |FieldNames(v)| && FieldNames(v)[i] == key;
        assert Items(st)[i].1 == Flag(true);
      }
    }
  }

  /** Under RAET, `JOINED` constrains the `joined` attribute alone. */
  lemma RaetJoinedPassesIff(obj: Attributes)
    ensures CheckStateOutcome(Some(Joined(false)), obj) == Passed
        <==> "joined" in obj && obj["joined"] == Some(true)
  {
    var st := Joined(false);
    CheckStatePassesIff(st, obj);
    assert Items(st)[0] == ("joined", Flag(true));
  }

  /** Under RAET, `NOT_CONNECTED` passes iff all three attributes are present and `None`. */
  lemma RaetNotConnectedPassesIff(obj: Attributes)
    ensures CheckStateOutcome(Some(NotConnected(false)), obj) == Passed
        <==> forall key :: key in FieldNames(Raet) ==> key in obj && obj[key] == None
  {
    var st := NotConnected(false);
    CheckStatePassesIff(st, obj);
    if Conforms(st, obj) {
      forall key | key in FieldNames(Raet) ensures key in obj && obj[key] == None {
        var i :| 0 <= i < |FieldNames(Raet)| && FieldNames(Raet)[i] == key;
        assert Items(st)[i].1 == Unset;
      }
    }
  }

  /**
   * Under ZStack, `NOT_CONNECTED`, `JOINED_NOT_ALLOWED` and `JOINED` are one
   * state, and checking against it passes iff `isConnected` is false.
   */
  lemma ZStackDisconnectedStates(obj: Attributes)
    ensures NotConnected(true) == JoinedNotAllowed(true) == Joined(true) != Connected(true)
    ensures CheckStateOutcome(Some(NotConnected(true)), obj) == Passed
        <==> "isConnected" in obj && obj["isConnected"] == Some(false)
  {
    var st := NotConnected(true);
    CheckStatePassesIff(st, obj);
    assert Items(st)[0] == ("isConnected", Flag(false));
  }

  /** A RAET remote that is joined and alive but not allowed fails `CONNECTED`, reporting `allowed`. */
  lemma NotAllowedReported(obj: Attributes)
    requires "joined" in obj && obj["joined"] == Some(true)
    requires "allowed" in obj && obj["allowed"] == Some(false)
    requires "alived" in obj && obj["alived"] == Some(true)
    ensures CheckStateOutcome(Some(Connected(false)), obj) == Failed({("allowed", Flag(false))})
  {
    var st := Connected(false);
    assert FirstMissing(Items(st), obj).None?;
    CheckStateDiagnostic(st, obj);
    var m := Mismatches(st, obj);
    assert ("allowed", Flag(false)) in m by {
      assert Items(st)[1] == ("allowed", Flag(true));
    }
    forall p | p in m ensures p == ("allowed", Flag(false)) {
      var i :| 0 <= i < |Items(st)| && Items(st)[i].1 != NotApplicable && Items(st)[i].0 in obj
        && AsSlot(obj[Items(st)[i].0]) != Items(st)[i].1 && p == (Items(st)[i].0, AsSlot(obj[Items(st)[i].0]));
      assert i == 1;
    }
    assert m == {("allowed", Flag(false))};
  }
}
