/** The bootstrap balances file made from a genesis allocation. */
module Bootstrap {
  import opened Types
  import opened Hex
  import opened Addresses
  import opened Sorting

  /** Account texts with their balance texts. */
  type Allocation = map<string, string>

  datatype Balance = Balance(account: string, value: int)

  /** A balance text of less than two characters makes the program panic. */
  datatype Outcome =
    | Balances(list: seq<Balance>)
    | InvalidAddress(key: string)
    | BadBalance(text: string)
    | SlicePanic(text: string)

  // ---------- Reading balances ----------

  /** A number in base 16 with an optional sign. */
  function ParseBase16(s: string): Option<int> {
    if s == "" then None
    else if s[0] == '-' || s[0] == '+' then
      if |s| == 1 || Value(s[1..]).None? then None
      else
        var n: int := Value(s[1..]).value;
        Some(if s[0] == '-' then -n else n)
    else if Value(s).None? then None
    else Some(Value(s).value)
  }

  /** The first two characters of a balance text are dropped unread. */
  predicate Readable(text: string) {
    |text| >= 2 && ParseBase16(text[2..]).Some?
  }

  function ReadBalance(text: string): int
    requires Readable(text)
  {
    ParseBase16(text[2..]).value
  }

  /** Behind two characters that are not looked at, a balance is a row of hex digits
      of either case, with or without a sign. */
  lemma {:induction false} ReadsDigits(x: string, s: string, n: nat)
    requires |x| == 2 && s != "" && Value(s) == Some(n)
    ensures Readable(x + s) && ReadBalance(x + s) == n
    ensures Readable(x + "+" + s) && ReadBalance(x + "+" + s) == n
    ensures Readable(x + "-" + s) && ReadBalance(x + "-" + s) == -(n as int)
  {
    FirstIsDigit(s);
    BehindTwo(x, s);
    BehindTwo(x, "+" + s);
    BehindTwo(x, "-" + s);
    assert x + "+" + s == x + ("+" + s) && x + "-" + s == x + ("-" + s);
    assert ("+" + s)[1..] == s && ("-" + s)[1..] == s;
  }

  lemma {:induction false} BehindTwo(x: string, s: string)
    requires |x| == 2
    ensures (x + s)[2..] == s
  {
  }

  /** Nothing else is read as a balance. */
  lemma {:induction false} ReadsNothingElse(text: string)
    ensures Readable(text) ==>
              |text| > 2
              && (Value(text[2..]).Some? || (text[2] in "+-" && |text| > 3 && Value(text[3..]).Some?))
  {
    if |text| > 2 {
      assert text[2..][1..] == text[3..];
    }
  }

  /** A hex quantity, the form genesis files use, is read as its number. */
  lemma {:induction false} ReadsQuantities(n: nat)
    ensures Readable(EncodeBig(n)) && ReadBalance(EncodeBig(n)) == n
  {
    ValueOfDigits(n);
    ReadsDigits("0x", Digits(n), n);
  }

  lemma {:induction false} FirstIsDigit(s: string)
    requires s != "" && Value(s).Some?
    ensures Nibble(s[0]).Some?
  {
    if |s| > 1 {
      FirstIsDigit(s[..|s| - 1]);
    }
  }

  // ---------- The generator as a function of the map's iteration order ----------

  datatype Collected = Collected(keys: seq<string>, formatted: map<string, string>) | Invalid(key: string)

  function Collect(alloc: Allocation, order: seq<string>, upper: Casing): Collected
    requires forall k :: k in order ==> k in alloc
  {
    if order == [] then Collected([], map[])
    else
      var k, before := order[|order| - 1], Collect(alloc, order[..|order| - 1], upper);
      if before.Invalid? then before
      else
        var checked := ChecksumAddress(k, upper);
        if checked.None? then Invalid(k)
        else Collected(before.keys + [checked.value], before.formatted[checked.value := alloc[k]])
  }

  /** The entries for sorted accounts: accounts without a balance are left out, and
      the first balance that cannot be read decides the outcome. */
  function Write(formatted: map<string, string>, keys: seq<string>): Outcome
    requires forall k :: k in keys ==> k in formatted
  {
    if keys == [] then Balances([])
    else
      var k, before := keys[|keys| - 1], Write(formatted, keys[..|keys| - 1]);
      var text := formatted[k];
      if !before.Balances? then before
      else if |text| < 2 then SlicePanic(text)
      else if !Readable(text) then BadBalance(text)
      else if ReadBalance(text) == 0 then before
      else Balances(before.list + [Balance(k, ReadBalance(text))])
  }

  /** The checksum form of the address a key names. */
  function Name(key: string, upper: Casing): string {
    Text(HexToAddress(key), upper)
  }

  function Names(order: seq<string>, upper: Casing): seq<string> {
    seq(|order|, i requires 0 <= i < |order| => Name(order[i], upper))
  }

  lemma {:induction false} CollectKeys(alloc: Allocation, order: seq<string>, upper: Casing)
    requires forall k :: k in order ==> k in alloc
    ensures var c := Collect(alloc, order, upper);
            c.Collected? ==> c.keys == Names(order, upper) && forall k :: k in c.keys <==> k in c.formatted
  {
    if order != [] {
      var init, k := order[..|order| - 1], order[|order| - 1];
      CollectKeys(alloc, init, upper);
      assert Names(order, upper) == Names(init, upper) + [Name(k, upper)];
    }
  }

  lemma {:induction false} CollectFails(alloc: Allocation, order: seq<string>, upper: Casing)
    requires forall k :: k in order ==> k in alloc
    ensures Collect(alloc, order, upper).Collected? <==> forall k :: k in order ==> IsHexAddress(k)
  {
    if order != [] {
      var init, k := order[..|order| - 1], order[|order| - 1];
      CollectFails(alloc, init, upper);
      assert forall l :: l in order <==> l in init || l == k;
    }
  }

  function GenerateFrom(c: Collected): Outcome
    requires c.Collected? ==> forall k :: k in c.keys ==> k in c.formatted
  {
    if c.Invalid? then InvalidAddress(c.key)
    else
      SortContents(c.keys);
      Write(c.formatted, Sort(c.keys))
  }

  function Generate(alloc: Allocation, order: seq<string>, upper: Casing): Outcome
    requires forall k :: k in order ==> k in alloc
  {
    CollectKeys(alloc, order, upper);
    GenerateFrom(Collect(alloc, order, upper))
  }

  /** After an invalid key nothing more is looked at. */
  lemma {:induction false} CollectStops(alloc: Allocation, order: seq<string>, rest: seq<string>, upper: Casing)
    requires forall k :: k in order + rest ==> k in alloc
    requires forall k :: k in order ==> k in alloc
    requires Collect(alloc, order, upper).Invalid?
    ensures Collect(alloc, order + rest, upper) == Collect(alloc, order, upper)
  {
    if rest == [] {
      assert order + rest == order;
    } else {
      assert (order + rest)[..|order + rest| - 1] == order + rest[..|rest| - 1];
      CollectStops(alloc, order, rest[..|rest| - 1], upper);
    }
  }

  ghost predicate Visits(order: seq<string>, alloc: Allocation) {
    Enumerates(order, alloc.Keys) && forall k :: k in order ==> k in alloc
  }

  lemma {:induction false} InvalidSeen(alloc: Allocation, order: seq<string>, seen: set<string>, upper: Casing,
                                       k: string)
    requires Enumerates(order, seen) && seen <= alloc.Keys
    requires forall l :: l in order ==> l in alloc
    requires Collect(alloc, order, upper) == Invalid(k)
    ensures exists full :: Visits(full, alloc) && Generate(alloc, full, upper) == InvalidAddress(k)
  {
    var rest := EnumerateRest(order, seen, alloc.Keys);
    assert Visits(order + rest, alloc);
    CollectStops(alloc, order, rest, upper);
  }

  /** The allocation map is iterated in no particular order. */
  method GenerateBootstrapFile(alloc: Allocation, upper: Casing) returns (r: Outcome)
    ensures exists order :: Visits(order, alloc) && r == Generate(alloc, order, upper)
  {
    var keys: seq<string> := [];
    var formattedAllocations: map<string, string> := map[];
    ghost var order: seq<string> := [];
    var remaining := alloc.Keys;
    while remaining != {}
      invariant remaining <= alloc.Keys
      invariant Enumerates(order, alloc.Keys - remaining)
      invariant forall k :: k in order ==> k in alloc
      invariant Collect(alloc, order, upper) == Collected(keys, formattedAllocations)
      decreases remaining
    {
      var k :| k in remaining;
      remaining := remaining - {k};
      assert (order + [k])[..|order|] == order;
      order := order + [k];
      assert Enumerates(order, alloc.Keys - remaining);
      var checkAddr := ChecksumAddress(k, upper);
      if checkAddr.None? {
        InvalidSeen(alloc, order, alloc.Keys - remaining, upper, k);
        return InvalidAddress(k);
      }
      keys := keys + [checkAddr.value];
      formattedAllocations := formattedAllocations[checkAddr.value := alloc[k]];
    }
    assert Visits(order, alloc);
    CollectKeys(alloc, order, upper);
    SortContents(keys);
    keys := Sort(keys);
    r := WriteBalances(formattedAllocations, keys);
  }

  method WriteBalances(formatted: map<string, string>, keys: seq<string>) returns (r: Outcome)
    requires forall k :: k in keys ==> k in formatted
    ensures r == Write(formatted, keys)
  {
    var balances: seq<Balance> := [];
    var i := 0;
    while i < |keys|
      invariant 0 <= i <= |keys|
      invariant Write(formatted, keys[..i]) == Balances(balances)
    {
      var k := keys[i];
      var v := formatted[k];
      assert keys[..i + 1][..i] == keys[..i];
      if |v| < 2 || !Readable(v) {
        WriteStops(formatted, keys, i + 1);
        return if |v| < 2 then SlicePanic(v) else BadBalance(v);
      }
      var bal := ReadBalance(v);
      i := i + 1;
      if bal == 0 {
        continue;
      }
      balances := balances + [Balance(k, bal)];
    }
    assert keys[..i] == keys;
    r := Balances(balances);
  }

  lemma {:induction false} WriteStops(formatted: map<string, string>, keys: seq<string>, n: nat)
    requires forall k :: k in keys ==> k in formatted
    requires n <= |keys| && !Write(formatted, keys[..n]).Balances?
    ensures Write(formatted, keys) == Write(formatted, keys[..n])
  {
    if n == |keys| {
      assert keys[..n] == keys;
    } else {
      assert keys[..|keys| - 1][..n] == keys[..n];
      WriteStops(formatted, keys[..|keys| - 1], n);
    }
  }
}
