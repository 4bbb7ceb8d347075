/** The tracer's call objects: what their keys hold, and the order JavaScript
    keeps the keys in, which finalizing changes. */
module JsObjects {
  import opened Types

  // ---------- Call objects by what their keys hold ----------

  /** A JavaScript call object. None stands for an undefined key. The tracer
      creates `calls` only to push onto it, so an undefined `calls` is []. */
  datatype JsCall = JsCall(
    kind: Option<OpType>,
    from: Option<Address>,
    to: Option<Address>,
    value: Option<nat>,
    gas: Option<nat>,
    gasUsed: Option<nat>,
    input: Option<string>,
    output: Option<string>,
    error: Option<string>,
    time: Option<string>,
    calls: seq<JsCall>)

  const EMPTY_CALL: JsCall :=
    JsCall(None, None, None, None, None, None, None, None, None, None, [])

  // ---------- Call objects with their keys in order ----------

  datatype Key =
    | TypeKey | FromKey | ToKey | ValueKey | GasKey | GasUsedKey
    | InputKey | OutputKey | ErrorKey | TimeKey | CallsKey

  datatype JsValue =
    | Undefined
    | OfKind(kind: OpType)
    | OfAddress(address: Address)
    | OfQuantity(quantity: nat)
    | OfText(text: string)
    | OfCalls(calls: seq<JsObject>)

  datatype Field = Field(key: Key, value: JsValue)

  /** The fields of an object in the order they were added. */
  datatype JsObject = JsObject(fields: seq<Field>)

  function Get(fields: seq<Field>, key: Key): JsValue {
    if fields == [] then Undefined
    else if fields[0].key == key then fields[0].value
    else Get(fields[1..], key)
  }

  lemma {:induction false} CallsInside(f: seq<Field>)
    ensures Get(f, CallsKey).OfCalls? ==> (f decreases to Get(f, CallsKey).calls)
  {
    if f != [] {
      if f[0].key == CallsKey && f[0].value.OfCalls? {
        assert f decreases to f[0];
        assert f[0] decreases to f[0].value;
        assert f[0].value decreases to f[0].value.calls;
      } else {
        CallsInside(f[1..]);
      }
    }
  }

  /** The calls of an object, if it has any. */
  function CallsOf(o: JsObject): (calls: Option<seq<JsObject>>)
    ensures calls.Some? ==> (o decreases to calls.value)
  {
    CallsInside(o.fields);
    if Get(o.fields, CallsKey).OfCalls? then Some(Get(o.fields, CallsKey).calls) else None
  }

  /** What the keys of an object hold. */
  function Read(o: JsObject): JsCall
    decreases o, 1
  {
    var f := o.fields;
    JsCall(KindAt(f, TypeKey), AddressAt(f, FromKey), AddressAt(f, ToKey),
           QuantityAt(f, ValueKey), QuantityAt(f, GasKey), QuantityAt(f, GasUsedKey),
           TextAt(f, InputKey), TextAt(f, OutputKey), TextAt(f, ErrorKey), TextAt(f, TimeKey),
           if CallsOf(o).Some? then ReadAll(CallsOf(o).value) else [])
  }

  function ReadAll(os: seq<JsObject>): (r: seq<JsCall>)
    ensures |r| == |os|
    decreases os, 0
  {
    if os == [] then [] else [Read(os[0])] + ReadAll(os[1..])
  }

  function KindAt(f: seq<Field>, k: Key): Option<OpType> {
    if Get(f, k).OfKind? then Some(Get(f, k).kind) else None
  }

  function AddressAt(f: seq<Field>, k: Key): Option<Address> {
    if Get(f, k).OfAddress? then Some(Get(f, k).address) else None
  }

  function QuantityAt(f: seq<Field>, k: Key): Option<nat> {
    if Get(f, k).OfQuantity? then Some(Get(f, k).quantity) else None
  }

  function TextAt(f: seq<Field>, k: Key): Option<string> {
    if Get(f, k).OfText? then Some(Get(f, k).text) else None
  }

  // ---------- Finalizing ----------

  /** The order in which keys are displayed; `calls` comes last. */
  const DISPLAY: seq<Key> :=
    [TypeKey, FromKey, ToKey, ValueKey, GasKey, GasUsedKey, InputKey, OutputKey, ErrorKey, TimeKey]

  /** The fields of the given keys, in the order given, as far as they are defined. */
  function Show(value: Key -> JsValue, keys: seq<Key>): seq<Field> {
    if keys == [] then []
    else
      var n := |keys| - 1;
      Show(value, keys[..n]) + if value(keys[n]).Undefined? then [] else [Field(keys[n], value(keys[n]))]
  }

  function Getter(f: seq<Field>): Key -> JsValue {
    key => Get(f, key)
  }

  /** An object with its defined keys in display order, all the way down. */
  function Finalized(o: JsObject): JsObject
    decreases o, 1
  {
    JsObject(Show(Getter(o.fields), DISPLAY)
             + if CallsOf(o).Some? then [Field(CallsKey, OfCalls(FinalizedAll(CallsOf(o).value)))] else [])
  }

  function FinalizedAll(os: seq<JsObject>): (r: seq<JsObject>)
    ensures |r| == |os|
    decreases os, 0
  {
    if os == [] then [] else [Finalized(os[0])] + FinalizedAll(os[1..])
  }

  /** Rebuilds a call object with its keys in display order. */
  method Finalize(call: JsObject) returns (sorted: JsObject)
    ensures sorted == Finalized(call)
    decreases call, 1
  {
    var fields: seq<Field> := [];
    var k := 0;
    while k < |DISPLAY|
      invariant 0 <= k <= |DISPLAY|
      invariant fields == Show(Getter(call.fields), DISPLAY[..k])
    {
      assert DISPLAY[..k + 1][..k] == DISPLAY[..k];
      var value := Get(call.fields, DISPLAY[k]);
      if !value.Undefined? {
        fields := fields + [Field(DISPLAY[k], value)];
      }
      k := k + 1;
    }
    assert DISPLAY[..k] == DISPLAY;
    var calls := CallsOf(call);
    if calls.Some? {
      var finalized := FinalizeAll(calls.value);
      fields := fields + [Field(CallsKey, OfCalls(finalized))];
    }
    sorted := JsObject(fields);
  }

  /** Replaces each of the calls by its finalized form. */
  method FinalizeAll(calls: seq<JsObject>) returns (finalized: seq<JsObject>)
    ensures finalized == FinalizedAll(calls)
    decreases calls, 0
  {
    finalized := calls;
    var i := 0;
    while i < |finalized|
      invariant 0 <= i <= |finalized| == |calls|
      invariant finalized[..i] == FinalizedAll(calls)[..i]
      invariant finalized[i..] == calls[i..]
    {
      FinalizedAt(calls, i);
      assert finalized[i] == finalized[i..][0] == calls[i];
      var c := Finalize(finalized[i]);
      finalized := finalized[i := c];
      i := i + 1;
    }
  }

  lemma {:induction false} FinalizedAt(os: seq<JsObject>, i: nat)
    requires i < |os|
    ensures FinalizedAll(os)[i] == Finalized(os[i])
  {
    if i > 0 {
      FinalizedAt(os[1..], i - 1);
    }
  }

  lemma {:induction false} GetConcat(f: seq<Field>, g: seq<Field>, key: Key)
    ensures Get(f + g, key) == if exists x :: x in f && x.key == key then Get(f, key) else Get(g, key)
  {
    if f == [] {
      assert f + g == g;
    } else {
      assert (f + g)[1..] == f[1..] + g;
      GetConcat(f[1..], g, key);
      assert forall x :: x in f <==> x == f[0] || x in f[1..];
    }
  }

  /** Showing keys keeps what they hold and leaves out all the others. */
  lemma {:induction false} ShowGet(value: Key -> JsValue, keys: seq<Key>, key: Key)
    ensures Get(Show(value, keys), key) == if key in keys then value(key) else Undefined
    ensures (exists x :: x in Show(value, keys) && x.key == key) <==> key in keys && !value(key).Undefined?
  {
    if keys != [] {
      var n := |keys| - 1;
      var last := if value(keys[n]).Undefined? then [] else [Field(keys[n], value(keys[n]))];
      ShowGet(value, keys[..n], key);
      GetConcat(Show(value, keys[..n]), last, key);
      assert key in keys <==> key in keys[..n] || key == keys[n];
    }
  }

  lemma {:induction false} DisplayedKeys()
    ensures forall key :: key in DISPLAY <==> key != CallsKey
  {
    assert DISPLAY[0] == TypeKey && DISPLAY[1] == FromKey && DISPLAY[2] == ToKey && DISPLAY[3] == ValueKey;
    assert DISPLAY[4] == GasKey && DISPLAY[5] == GasUsedKey && DISPLAY[6] == InputKey && DISPLAY[7] == OutputKey;
    assert DISPLAY[8] == ErrorKey && DISPLAY[9] == TimeKey;
  }

  /** Finalizing keeps what every displayed key holds. */
  lemma {:induction false} FinalizedGet(o: JsObject, key: Key)
    requires key in DISPLAY
    ensures Get(Finalized(o).fields, key) == Get(o.fields, key)
  {
    var shown := Show(Getter(o.fields), DISPLAY);
    DisplayedKeys();
    ShowGet(Getter(o.fields), DISPLAY, key);
    if CallsOf(o).Some? {
      GetConcat(shown, [Field(CallsKey, OfCalls(FinalizedAll(CallsOf(o).value)))], key);
    } else {
      assert shown + [] == shown;
    }
  }

  /** And it finalizes the calls. */
  lemma {:induction false} FinalizedCalls(o: JsObject)
    ensures CallsOf(Finalized(o))
         == if CallsOf(o).Some? then Some(FinalizedAll(CallsOf(o).value)) else None
  {
    var shown := Show(Getter(o.fields), DISPLAY);
    DisplayedKeys();
    ShowGet(Getter(o.fields), DISPLAY, CallsKey);
    if CallsOf(o).Some? {
      GetConcat(shown, [Field(CallsKey, OfCalls(FinalizedAll(CallsOf(o).value)))], CallsKey);
    } else {
      assert shown + [] == shown;
    }
  }

  /** Two objects hold the same under every key; their fields may be ordered differently. */
  ghost predicate Same(o: JsObject, p: JsObject)
    decreases o, 1
  {
    (forall key :: key in DISPLAY ==> Get(o.fields, key) == Get(p.fields, key))
    && match (CallsOf(o), CallsOf(p))
       case (None, None) => true
       case (Some(os), Some(ps)) => SameAll(os, ps)
       case _ => false
  }

  ghost predicate SameAll(os: seq<JsObject>, ps: seq<JsObject>)
    decreases os, 0
  {
    |os| == |ps| && (os == [] || (Same(os[0], ps[0]) && SameAll(os[1..], ps[1..])))
  }

  lemma {:induction false} ShowSame(value: Key -> JsValue, value': Key -> JsValue, keys: seq<Key>)
    requires forall key :: key in keys ==> value(key) == value'(key)
    ensures Show(value, keys) == Show(value', keys)
  {
    if keys != [] {
      ShowSame(value, value', keys[..|keys| - 1]);
    }
  }

  /** Finalizing gives two objects the same form exactly when they hold the same:
      the result does not depend on the order in which keys were added. */
  lemma {:induction false} FinalizedIffSame(o: JsObject, p: JsObject)
    ensures Finalized(o) == Finalized(p) <==> Same(o, p)
    decreases o, 1
  {
    FinalizedCalls(o);
    FinalizedCalls(p);
    if CallsOf(o).Some? && CallsOf(p).Some? {
      FinalizedAllIffSame(CallsOf(o).value, CallsOf(p).value);
    }
    if Finalized(o) == Finalized(p) {
      forall key | key in DISPLAY ensures Get(o.fields, key) == Get(p.fields, key) {
        FinalizedGet(o, key);
        FinalizedGet(p, key);
      }
    }
    if Same(o, p) {
      ShowSame(Getter(o.fields), Getter(p.fields), DISPLAY);
    }
  }

  lemma {:induction false} FinalizedAllIffSame(os: seq<JsObject>, ps: seq<JsObject>)
    ensures FinalizedAll(os) == FinalizedAll(ps) <==> SameAll(os, ps)
    decreases os, 0
  {
    if |os| == |ps| && os != [] {
      FinalizedIffSame(os[0], ps[0]);
      FinalizedAllIffSame(os[1..], ps[1..]);
      assert FinalizedAll(os)[1..] == FinalizedAll(os[1..]) && FinalizedAll(ps)[1..] == FinalizedAll(ps[1..]);
    }
  }

  /** A finalized object holds what the object held. */
  lemma {:induction false} FinalizedSame(o: JsObject)
    ensures Same(Finalized(o), o)
    decreases o, 1
  {
    forall key | key in DISPLAY ensures Get(Finalized(o).fields, key) == Get(o.fields, key) {
      FinalizedGet(o, key);
    }
    FinalizedCalls(o);
    if CallsOf(o).Some? {
      FinalizedAllSame(CallsOf(o).value);
    }
  }

  lemma {:induction false} FinalizedAllSame(os: seq<JsObject>)
    ensures SameAll(FinalizedAll(os), os)
    decreases os, 0
  {
    if os != [] {
      FinalizedSame(os[0]);
      FinalizedAllSame(os[1..]);
      assert FinalizedAll(os)[1..] == FinalizedAll(os[1..]);
    }
  }

  function Place(key: Key): nat {
    match key
    case TypeKey => 0 case FromKey => 1 case ToKey => 2 case ValueKey => 3 case GasKey => 4 case GasUsedKey => 5
    case InputKey => 6 case OutputKey => 7 case ErrorKey => 8 case TimeKey => 9 case CallsKey => 10
  }

  ghost predicate InPlace(s: seq<Field>) {
    forall i, j :: 0 <= i < j < |s| ==> Place(s[i].key) < Place(s[j].key)
  }

  lemma {:induction false} InPlaceSnoc(s: seq<Field>, f: Field)
    requires InPlace(s) && forall x :: x in s ==> Place(x.key) < Place(f.key)
    ensures InPlace(s + [f])
  {
    forall i | 0 <= i < |s| ensures Place(s[i].key) < Place(f.key) {
      assert s[i] in s;
    }
  }

  /** The keys of an object, and of all calls below it, stand in display order, and
      none of them is undefined. */
  ghost predicate Displayed(o: JsObject)
    decreases o, 1
  {
    InPlace(o.fields)
    && (forall f :: f in o.fields ==> !f.value.Undefined?)
    && (CallsOf(o).Some? ==> DisplayedAll(CallsOf(o).value))
  }

  ghost predicate DisplayedAll(os: seq<JsObject>)
    decreases os, 0
  {
    os == [] || (Displayed(os[0]) && DisplayedAll(os[1..]))
  }

  lemma {:induction false} ShowOrdered(value: Key -> JsValue, n: nat)
    requires n <= |DISPLAY|
    ensures forall f :: f in Show(value, DISPLAY[..n]) ==> Place(f.key) < n && !f.value.Undefined?
    ensures InPlace(Show(value, DISPLAY[..n]))
  {
    if n > 0 {
      assert DISPLAY[..n][..n - 1] == DISPLAY[..n - 1];
      ShowOrdered(value, n - 1);
      DisplayPlace(n - 1);
      var s, last := Show(value, DISPLAY[..n - 1]), value(DISPLAY[n - 1]);
      if !last.Undefined? {
        assert Show(value, DISPLAY[..n]) == s + [Field(DISPLAY[n - 1], last)];
        InPlaceSnoc(s, Field(DISPLAY[n - 1], last));
      } else {
        assert Show(value, DISPLAY[..n]) == s;
      }
    }
  }

  lemma {:induction false} DisplayPlace(n: nat)
    requires n < |DISPLAY|
    ensures Place(DISPLAY[n]) == n
  {
  }

  lemma {:induction false} FinalizedDisplayed(o: JsObject)
    ensures Displayed(Finalized(o))
    decreases o, 1
  {
    ShowOrdered(Getter(o.fields), |DISPLAY|);
    assert DISPLAY[..|DISPLAY|] == DISPLAY;
    FinalizedCalls(o);
    if CallsOf(o).Some? {
      FinalizedAllDisplayed(CallsOf(o).value);
      InPlaceSnoc(Show(Getter(o.fields), DISPLAY), Field(CallsKey, OfCalls(FinalizedAll(CallsOf(o).value))));
    }
  }

  lemma {:induction false} FinalizedAllDisplayed(os: seq<JsObject>)
    ensures DisplayedAll(FinalizedAll(os))
    decreases os, 0
  {
    if os != [] {
      FinalizedDisplayed(os[0]);
      FinalizedAllDisplayed(os[1..]);
      assert FinalizedAll(os)[1..] == FinalizedAll(os[1..]);
    }
  }

  /** Finalizing puts the keys in display order, all the way down, and keeps what
      they hold; there is only one such object, so finalizing twice is finalizing once. */
  lemma {:induction false} FinalizeOrders(o: JsObject)
    ensures Displayed(Finalized(o)) && Same(Finalized(o), o)
    ensures Finalized(Finalized(o)) == Finalized(o)
  {
    FinalizedDisplayed(o);
    FinalizedSame(o);
    FinalizedIffSame(Finalized(o), o);
  }

  function Keys(fields: seq<Field>): seq<Key> {
    if fields == [] then [] else Keys(fields[..|fields| - 1]) + [fields[|fields| - 1].key]
  }

  lemma {:induction false} ShowAll(value: Key -> JsValue, keys: seq<Key>)
    requires forall key :: key in keys ==> !value(key).Undefined?
    ensures Keys(Show(value, keys)) == keys
  {
    if keys != [] {
      var n := |keys| - 1;
      ShowAll(value, keys[..n]);
      KeysSnoc(Show(value, keys[..n]), Field(keys[n], value(keys[n])));
    }
  }

  lemma {:induction false} KeysSnoc(fields: seq<Field>, f: Field)
    ensures Keys(fields + [f]) == Keys(fields) + [f.key]
  {
    assert (fields + [f])[..|fields|] == fields;
  }

  /** The display order, key by key: that of an object with every key. */
  lemma {:induction false} FinalizedKeys(o: JsObject)
    requires CallsOf(o).Some? && forall key: Key :: !Get(o.fields, key).Undefined?
    ensures Keys(Finalized(o).fields)
         == [TypeKey, FromKey, ToKey, ValueKey, GasKey, GasUsedKey, InputKey, OutputKey, ErrorKey, TimeKey, CallsKey]
  {
    var f := FinalizedShows(o, DISPLAY);
    ShowAllAnd(Getter(o.fields), DISPLAY, f);
  }

  lemma {:induction false} FinalizedShows(o: JsObject, keys: seq<Key>) returns (f: Field)
    requires CallsOf(o).Some? && keys == DISPLAY
    ensures f.key == CallsKey && Finalized(o).fields == Show(Getter(o.fields), keys) + [f]
  {
    f := Field(CallsKey, OfCalls(FinalizedAll(CallsOf(o).value)));
  }

  lemma {:induction false} ShowAllAnd(value: Key -> JsValue, keys: seq<Key>, f: Field)
    requires forall key :: key in keys ==> !value(key).Undefined?
    ensures Keys(Show(value, keys) + [f]) == keys + [f.key]
  {
    ShowAll(value, keys);
    KeysSnoc(Show(value, keys), f);
  }

  /** Objects that hold the same read the same. */
  lemma {:induction false} SameReads(o: JsObject, p: JsObject)
    requires Same(o, p)
    ensures Read(o) == Read(p)
    decreases o, 1
  {
    DisplayedKeys();
    if CallsOf(o).Some? {
      SameAllReads(CallsOf(o).value, CallsOf(p).value);
    }
  }

  lemma {:induction false} SameAllReads(os: seq<JsObject>, ps: seq<JsObject>)
    requires SameAll(os, ps)
    ensures ReadAll(os) == ReadAll(ps)
    decreases os, 0
  {
    if os != [] {
      SameReads(os[0], ps[0]);
      SameAllReads(os[1..], ps[1..]);
    }
  }

  // ---------- The objects the tracer holds ----------

  /** The order in which entering a call, recording its calls and exiting it add keys. */
  const ADDED: seq<Key> :=
    [TypeKey, FromKey, ToKey, InputKey, GasKey, ValueKey, CallsKey, GasUsedKey, OutputKey, ErrorKey, TimeKey]

  /** The order in which the keys of the outermost call are added. */
  const ROOT_ADDED: seq<Key> :=
    [TypeKey, FromKey, ToKey, ValueKey, GasKey, GasUsedKey, InputKey, OutputKey, CallsKey, ErrorKey, TimeKey]

  /** What the keys of a recorded call hold, given the objects of its calls. */
  function Holder(c: JsCall, calls: seq<JsObject>): Key -> JsValue {
    (key: Key) =>
      match key
      case TypeKey => KindValue(c.kind)
      case FromKey => AddressValue(c.from)
      case ToKey => AddressValue(c.to)
      case ValueKey => QuantityValue(c.value)
      case GasKey => QuantityValue(c.gas)
      case GasUsedKey => QuantityValue(c.gasUsed)
      case InputKey => TextValue(c.input)
      case OutputKey => TextValue(c.output)
      case ErrorKey => TextValue(c.error)
      case TimeKey => TextValue(c.time)
      case CallsKey => if calls == [] then Undefined else OfCalls(calls)
  }

  function KindValue(v: Option<OpType>): JsValue {
    if v.Some? then OfKind(v.value) else Undefined
  }

  function AddressValue(v: Option<Address>): JsValue {
    if v.Some? then OfAddress(v.value) else Undefined
  }

  function QuantityValue(v: Option<nat>): JsValue {
    if v.Some? then OfQuantity(v.value) else Undefined
  }

  function TextValue(v: Option<string>): JsValue {
    if v.Some? then OfText(v.value) else Undefined
  }

  /** The object of a recorded call. */
  function Held(c: JsCall): JsObject
    decreases c, 1
  {
    JsObject(Show(Holder(c, HeldAll(c.calls)), ADDED))
  }

  function HeldAll(cs: seq<JsCall>): (r: seq<JsObject>)
    ensures |r| == |cs|
    decreases cs, 0
  {
    if cs == [] then [] else [Held(cs[0])] + HeldAll(cs[1..])
  }

  /** The object of the outermost call. */
  function RootHeld(c: JsCall): JsObject {
    JsObject(Show(Holder(c, HeldAll(c.calls)), ROOT_ADDED))
  }

  /** Whatever the order of its keys, a recorded call's object reads as that call. */
  lemma {:induction false} ReadShown(c: JsCall, order: seq<Key>)
    requires forall key: Key :: key in order
    ensures Read(JsObject(Show(Holder(c, HeldAll(c.calls)), order))) == c
    decreases c, 1
  {
    var h := Holder(c, HeldAll(c.calls));
    var o := JsObject(Show(h, order));
    forall key: Key ensures Get(o.fields, key) == h(key) {
      ShowGet(h, order, key);
    }
    ReadHeldAll(c.calls);
    ReadHolder(o, c, HeldAll(c.calls));
  }

  lemma {:induction false} ReadHolder(o: JsObject, c: JsCall, calls: seq<JsObject>)
    requires forall key: Key :: Get(o.fields, key) == Holder(c, calls)(key)
    requires ReadAll(calls) == c.calls
    ensures Read(o) == c
  {
    var r, h := Read(o), Holder(c, calls);
    assert h(TypeKey) == KindValue(c.kind) && h(FromKey) == AddressValue(c.from) && h(ToKey) == AddressValue(c.to);
    assert r.kind == c.kind && r.from == c.from && r.to == c.to;
    assert r.value == c.value && r.gas == c.gas && r.gasUsed == c.gasUsed;
    assert r.input == c.input && r.output == c.output && r.error == c.error && r.time == c.time;
    assert r.calls == c.calls;
  }

  lemma {:induction false} ReadHeldAll(cs: seq<JsCall>)
    ensures ReadAll(HeldAll(cs)) == cs
    decreases cs, 0
  {
    if cs != [] {
      AllAdded();
      ReadShown(cs[0], ADDED);
      ReadHeldAll(cs[1..]);
      assert HeldAll(cs)[1..] == HeldAll(cs[1..]);
    }
  }

  lemma {:induction false} AllAdded()
    ensures forall key: Key :: key in ADDED && key in ROOT_ADDED
  {
    forall key: Key ensures key in ADDED && key in ROOT_ADDED {
      match key
      case TypeKey => assert ADDED[0] == ROOT_ADDED[0] == key;
      case FromKey => assert ADDED[1] == ROOT_ADDED[1] == key;
      case ToKey => assert ADDED[2] == ROOT_ADDED[2] == key;
      case InputKey => assert ADDED[3] == ROOT_ADDED[6] == key;
      case GasKey => assert ADDED[4] == ROOT_ADDED[4] == key;
      case ValueKey => assert ADDED[5] == ROOT_ADDED[3] == key;
      case CallsKey => assert ADDED[6] == ROOT_ADDED[8] == key;
      case GasUsedKey => assert ADDED[7] == ROOT_ADDED[5] == key;
      case OutputKey => assert ADDED[8] == ROOT_ADDED[7] == key;
      case ErrorKey => assert ADDED[9] == ROOT_ADDED[9] == key;
      case TimeKey => assert ADDED[10] == ROOT_ADDED[10] == key;
    }
  }

  /** Reading the finalized object of the outermost call gives that call back:
      finalizing loses nothing that decoding looks at. */
  lemma {:induction false} ReadFinalized(c: JsCall)
    ensures Read(Finalized(RootHeld(c))) == c
  {
    AllAdded();
    ReadShown(c, ROOT_ADDED);
    FinalizedSame(RootHeld(c));
    SameReads(Finalized(RootHeld(c)), RootHeld(c));
  }
}
