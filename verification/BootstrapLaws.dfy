/** What the bootstrap balances file promises: its contents, its total, and when it
    does not depend on the order the genesis map is iterated in. */
module BootstrapLaws {
  import opened Types
  import opened Hex
  import opened Addresses
  import opened Sorting
  import opened Bootstrap

  // ---------- Which text an account gets ----------

  /** The last key of `order` that names the address `a`. */
  function LastNamed(order: seq<string>, a: Address): (k: Option<string>)
    ensures k.Some? ==> k.value in order && HexToAddress(k.value) == a
    ensures k.None? ==> forall l :: l in order ==> HexToAddress(l) != a
  {
    if order == [] then None
    else
      var n := |order| - 1;
      if HexToAddress(order[n]) == a then Some(order[n]) else LastNamed(order[..n], a)
  }

  /** How many keys of `order` name the address `a`. */
  function Times(order: seq<string>, a: Address): nat {
    if order == [] then 0
    else Times(order[..|order| - 1], a) + if HexToAddress(order[|order| - 1]) == a then 1 else 0
  }

  predicate Within(order: seq<string>, alloc: Allocation) {
    forall k :: k in order ==> k in alloc
  }

  /** The balance text an address is given: that of the last key naming it. */
  function TextFor(alloc: Allocation, order: seq<string>, a: Address): Option<string>
    requires Within(order, alloc)
  {
    var k := LastNamed(order, a);
    if k.Some? then Some(alloc[k.value]) else None
  }

  /** The balance an address is given, 0 if it is not named or its text not readable. */
  function Owes(alloc: Allocation, order: seq<string>, a: Address): int
    requires Within(order, alloc)
  {
    var text := TextFor(alloc, order, a);
    if text.Some? && Readable(text.value) then ReadBalance(text.value) else 0
  }

  lemma {:induction false} TextInjective(a: Address, b: Address, upper: Casing)
    ensures Text(a, upper) == Text(b, upper) <==> a == b
  {
    TextRoundTrip(a, upper);
    TextRoundTrip(b, upper);
  }

  lemma {:induction false} CollectLast(alloc: Allocation, order: seq<string>, upper: Casing, a: Address)
    requires Within(order, alloc)
    requires Collect(alloc, order, upper).Collected?
    ensures var f := Collect(alloc, order, upper).formatted;
            TextFor(alloc, order, a) == if Text(a, upper) in f then Some(f[Text(a, upper)]) else None
  {
    if order != [] {
      var n := |order| - 1;
      CollectLast(alloc, order[..n], upper, a);
      TextInjective(a, HexToAddress(order[n]), upper);
    }
  }

  lemma {:induction false} NamesCount(order: seq<string>, upper: Casing, a: Address)
    ensures multiset(Names(order, upper))[Text(a, upper)] == Times(order, a)
    ensures Times(order, a) > 0 <==> LastNamed(order, a).Some?
  {
    if order != [] {
      NamesCount(order[..|order| - 1], upper, a);
      NamesCountLast(order, upper, a);
    }
  }

  lemma {:induction false} NamesCountLast(order: seq<string>, upper: Casing, a: Address)
    requires order != []
    ensures var n := |order| - 1;
            multiset(Names(order, upper))[Text(a, upper)]
            == multiset(Names(order[..n], upper))[Text(a, upper)] + if HexToAddress(order[n]) == a then 1 else 0
  {
    var n := |order| - 1;
    assert Names(order, upper) == Names(order[..n], upper) + [Name(order[n], upper)];
    CountSnoc(Names(order[..n], upper), Name(order[n], upper), Text(a, upper));
    TextInjective(a, HexToAddress(order[n]), upper);
  }

  // ---------- What is written ----------

  function Accounts(list: seq<Balance>): seq<string> {
    seq(|list|, i requires 0 <= i < |list| => list[i].account)
  }

  function SumOf(list: seq<Balance>): int {
    if list == [] then 0 else SumOf(list[..|list| - 1]) + list[|list| - 1].value
  }

  lemma {:induction false} WriteFails(formatted: map<string, string>, keys: seq<string>)
    requires forall k :: k in keys ==> k in formatted
    ensures Write(formatted, keys).Balances? <==> forall k :: k in keys ==> Readable(formatted[k])
  {
    if keys != [] {
      var n := |keys| - 1;
      WriteFails(formatted, keys[..n]);
      assert forall k :: k in keys <==> k in keys[..n] || k == keys[n];
    }
  }

  /** The balance `v` is that of the text and not zero. */
  predicate Owed(text: Option<string>, v: int) {
    text.Some? && Readable(text.value) && v == ReadBalance(text.value) && v != 0
  }

  function Found(formatted: map<string, string>, k: string): Option<string> {
    if k in formatted then Some(formatted[k]) else None
  }

  lemma {:induction false} WriteCount(formatted: map<string, string>, keys: seq<string>, b: Balance)
    requires forall k :: k in keys ==> k in formatted
    requires Write(formatted, keys).Balances?
    ensures multiset(Write(formatted, keys).list)[b]
         == if Owed(Found(formatted, b.account), b.value) then multiset(keys)[b.account] else 0
  {
    if keys != [] {
      WriteCount(formatted, keys[..|keys| - 1], b);
      WriteCountStep(formatted, keys, b);
    }
  }

  lemma {:induction false} WriteCountStep(formatted: map<string, string>, keys: seq<string>, b: Balance)
    requires keys != [] && forall k :: k in keys ==> k in formatted
    requires Write(formatted, keys).Balances?
    requires multiset(Write(formatted, keys[..|keys| - 1]).list)[b]
          == if Owed(Found(formatted, b.account), b.value) then multiset(keys[..|keys| - 1])[b.account] else 0
    ensures multiset(Write(formatted, keys).list)[b]
         == if Owed(Found(formatted, b.account), b.value) then multiset(keys)[b.account] else 0
  {
    var n := |keys| - 1;
    KeyCount(keys, b.account);
    CountSnoc(Write(formatted, keys[..n]).list, Balance(keys[n], ReadBalance(formatted[keys[n]])), b);
  }

  lemma {:induction false} KeyCount(keys: seq<string>, x: string)
    requires keys != []
    ensures multiset(keys)[x] == multiset(keys[..|keys| - 1])[x] + if keys[|keys| - 1] == x then 1 else 0
  {
    var n := |keys| - 1;
    CountSnoc(keys[..n], keys[n], x);
    assert keys == keys[..n] + [keys[n]];
  }

  lemma {:induction false} CountSnoc<T>(s: seq<T>, x: T, y: T)
    ensures multiset(s + [x])[y] == multiset(s)[y] + if x == y then 1 else 0
  {
  }

  lemma {:induction false} WriteSorted(formatted: map<string, string>, keys: seq<string>)
    requires forall k :: k in keys ==> k in formatted
    requires Sorted(keys) && Write(formatted, keys).Balances?
    ensures var list := Write(formatted, keys).list;
            Sorted(Accounts(list)) && forall a :: a in Accounts(list) ==> a in keys
  {
    if keys != [] {
      var n := |keys| - 1;
      var k, list := keys[n], Write(formatted, keys[..n]).list;
      WriteSorted(formatted, keys[..n]);
      AccountsSnoc(list, Balance(k, ReadBalance(formatted[k])));
      forall t | t in Accounts(list) ensures !Less(k, t) {
        assert t in keys[..n];
      }
      SortedSnoc(Accounts(list), k);
    }
  }

  lemma {:induction false} AccountsSnoc(list: seq<Balance>, b: Balance)
    ensures Accounts(list + [b]) == Accounts(list) + [b.account]
  {
  }

  lemma {:induction false} SortedSnoc(s: seq<string>, x: string)
    requires Sorted(s) && forall t :: t in s ==> !Less(x, t)
    ensures Sorted(s + [x])
  {
    forall i | 0 <= i < |s| ensures !Less(x, s[i]) {
      assert s[i] in s;
    }
  }

  // ---------- What is written for an allocation ----------

  ghost predicate AllValid(alloc: Allocation) {
    forall k :: k in alloc ==> IsHexAddress(k)
  }

  lemma {:induction false} NamedKey(order: seq<string>, upper: Casing, x: string) returns (k: string)
    requires x in Names(order, upper)
    ensures k in order && Name(k, upper) == x
  {
    var i :| 0 <= i < |order| && Names(order, upper)[i] == x;
    k := order[i];
  }

  lemma {:induction false} GenerateIs(alloc: Allocation, order: seq<string>, upper: Casing)
    requires AllValid(alloc) && Visits(order, alloc)
    ensures var c := Collect(alloc, order, upper);
            c.Collected? && c.keys == Names(order, upper)
            && (forall k :: k in Sort(c.keys) ==> k in c.formatted)
            && Generate(alloc, order, upper) == Write(c.formatted, Sort(c.keys))
  {
    CollectKeys(alloc, order, upper);
    CollectFails(alloc, order, upper);
    SortContents(Names(order, upper));
  }

  /** The text of an address is the one collected under its name. */
  lemma {:induction false} KeyText(alloc: Allocation, order: seq<string>, upper: Casing, a: Address)
    requires AllValid(alloc) && Visits(order, alloc)
    ensures Collect(alloc, order, upper).Collected?
    ensures var f := Collect(alloc, order, upper).formatted;
            TextFor(alloc, order, a) == Found(f, Text(a, upper))
            && (Text(a, upper) in f <==> Text(a, upper) in Names(order, upper))
  {
    CollectFails(alloc, order, upper);
    CollectKeys(alloc, order, upper);
    CollectLast(alloc, order, upper, a);
  }

  ghost predicate AllReadable(alloc: Allocation, order: seq<string>)
    requires Within(order, alloc)
  {
    forall a :: TextFor(alloc, order, a).Some? ==> Readable(TextFor(alloc, order, a).value)
  }

  lemma {:induction false} GenerateSucceeds(alloc: Allocation, order: seq<string>, upper: Casing)
    requires AllValid(alloc) && Visits(order, alloc)
    ensures Generate(alloc, order, upper).Balances? <==> AllReadable(alloc, order)
  {
    GenerateIs(alloc, order, upper);
    var f, keys := Collect(alloc, order, upper).formatted, Names(order, upper);
    SortContents(keys);
    WriteFails(f, Sort(keys));
    if Generate(alloc, order, upper).Balances? {
      forall a | TextFor(alloc, order, a).Some? ensures Readable(TextFor(alloc, order, a).value) {
        KeyText(alloc, order, upper, a);
        assert Text(a, upper) in Sort(keys);
      }
    }
    if AllReadable(alloc, order) {
      forall k | k in Sort(keys) ensures Readable(f[k]) {
        var i :| 0 <= i < |order| && keys[i] == k;
        KeyText(alloc, order, upper, HexToAddress(order[i]));
      }
    }
  }

  /** With valid addresses the file is made if and only if every address's text can
      be read; then its accounts ascend, and the balance of an address's text, when
      it is not zero, is listed once for every key that names the address. */
  lemma {:induction false} GenerateCounts(alloc: Allocation, order: seq<string>, upper: Casing)
    requires AllValid(alloc) && Visits(order, alloc)
    ensures Generate(alloc, order, upper).Balances? <==> AllReadable(alloc, order)
    ensures Generate(alloc, order, upper).Balances? ==>
              var accounts := Accounts(Generate(alloc, order, upper).list);
              Ascending(accounts) && forall x :: x in accounts ==> x in Names(order, upper)
    ensures Generate(alloc, order, upper).Balances? ==>
              forall a, v :: multiset(Generate(alloc, order, upper).list)[Balance(Text(a, upper), v)]
                          == if v != 0 && v == Owes(alloc, order, a) then Times(order, a) else 0
  {
    GenerateSucceeds(alloc, order, upper);
    if Generate(alloc, order, upper).Balances? {
      var c := Collect(alloc, order, upper);
      GenerateIs(alloc, order, upper);
      SortSorted(c.keys);
      SortContents(c.keys);
      WriteSorted(c.formatted, Sort(c.keys));
      SortedAscends(Accounts(Generate(alloc, order, upper).list));
      forall a, v
        ensures multiset(Generate(alloc, order, upper).list)[Balance(Text(a, upper), v)]
             == if v != 0 && v == Owes(alloc, order, a) then Times(order, a) else 0
      {
        KeyText(alloc, order, upper, a);
        NamesCount(order, upper, a);
        WriteCount(c.formatted, Sort(c.keys), Balance(Text(a, upper), v));
      }
    }
  }

  // ---------- How generating fails ----------

  ghost predicate FirstInvalid(order: seq<string>, k: string, n: int) {
    0 <= n < |order| && order[n] == k && !IsHexAddress(k) && forall m :: 0 <= m < n ==> IsHexAddress(order[m])
  }

  /** A key that names no address decides the outcome, the first one in iteration order. */
  lemma {:induction false} GenerateInvalid(alloc: Allocation, order: seq<string>, upper: Casing, k: string)
    requires Within(order, alloc)
    ensures Generate(alloc, order, upper) == InvalidAddress(k) <==> exists n :: FirstInvalid(order, k, n)
  {
    CollectInvalid(alloc, order, upper, k);
    if Generate(alloc, order, upper) == InvalidAddress(k) {
      GeneratedInvalid(alloc, order, upper, k);
    }
  }

  lemma {:induction false} GeneratedInvalid(alloc: Allocation, order: seq<string>, upper: Casing, k: string)
    requires Within(order, alloc)
    requires Generate(alloc, order, upper) == InvalidAddress(k)
    ensures Collect(alloc, order, upper) == Invalid(k)
  {
    var c := Collect(alloc, order, upper);
    if c.Collected? {
      CollectKeys(alloc, order, upper);
      SortContents(c.keys);
      WriteNames(c.formatted, Sort(c.keys));
    }
  }

  lemma {:induction false} WriteNames(f: map<string, string>, keys: seq<string>)
    requires forall k :: k in keys ==> k in f
    ensures !Write(f, keys).InvalidAddress?
  {
    if keys != [] {
      WriteNames(f, keys[..|keys| - 1]);
    }
  }

  lemma {:induction false} CollectInvalid(alloc: Allocation, order: seq<string>, upper: Casing, k: string)
    requires Within(order, alloc)
    ensures Collect(alloc, order, upper) == Invalid(k) <==> exists n :: FirstInvalid(order, k, n)
  {
    if order != [] {
      var init := order[..|order| - 1];
      CollectInvalid(alloc, init, upper, k);
      CollectFails(alloc, init, upper);
      FirstInvalidLast(order, k);
    }
  }

  lemma {:induction false} FirstInvalidLast(order: seq<string>, k: string)
    requires order != []
    ensures var n := |order| - 1;
            (exists m :: FirstInvalid(order, k, m))
            <==> (exists m :: FirstInvalid(order[..n], k, m))
                 || ((forall l :: l in order[..n] ==> IsHexAddress(l)) && order[n] == k && !IsHexAddress(k))
  {
    var n, init := |order| - 1, order[..|order| - 1];
    if m :| FirstInvalid(init, k, m) {
      assert FirstInvalid(order, k, m);
    }
    if (forall l :: l in init ==> IsHexAddress(l)) && order[n] == k && !IsHexAddress(k) {
      assert forall m :: 0 <= m < n ==> order[m] in init;
      assert FirstInvalid(order, k, n);
    }
    if m :| FirstInvalid(order, k, m) && m < n {
      assert FirstInvalid(init, k, m);
    }
  }

  /** Otherwise the first unreadable text in account order decides it: the program
      panics on a text of less than two characters, and reports any other. */
  lemma {:induction false} GenerateUnreadable(alloc: Allocation, order: seq<string>, upper: Casing)
    returns (a: Address)
    requires AllValid(alloc) && Visits(order, alloc)
    requires !Generate(alloc, order, upper).Balances?
    ensures TextFor(alloc, order, a).Some?
    ensures var text := TextFor(alloc, order, a).value;
            !Readable(text)
            && Generate(alloc, order, upper) == if |text| < 2 then SlicePanic(text) else BadBalance(text)
    ensures forall b :: TextFor(alloc, order, b).Some? && Precedes(Text(b, upper), Text(a, upper)) ==>
                          Readable(TextFor(alloc, order, b).value)
  {
    GenerateIs(alloc, order, upper);
    var f, keys := Collect(alloc, order, upper).formatted, Sort(Names(order, upper));
    SortContents(Names(order, upper));
    SortSorted(Names(order, upper));
    var n := WriteUnreadable(f, keys);
    var k := NamedKey(order, upper, keys[n]);
    a := HexToAddress(k);
    KeyText(alloc, order, upper, a);
    forall b | TextFor(alloc, order, b).Some? && Precedes(Text(b, upper), Text(a, upper))
      ensures Readable(TextFor(alloc, order, b).value)
    {
      KeyText(alloc, order, upper, b);
      LessIsPrecedes(Text(b, upper), Text(a, upper));
      EarlierInSorted(keys, n, Text(b, upper));
    }
  }

  lemma {:induction false} EarlierInSorted(keys: seq<string>, n: nat, x: string)
    requires Sorted(keys) && n < |keys| && x in keys && Less(x, keys[n])
    ensures exists m :: 0 <= m < n && keys[m] == x
  {
    var m :| 0 <= m < |keys| && keys[m] == x;
    LessIrreflexive(x);
  }

  lemma {:induction false} WriteUnreadable(f: map<string, string>, keys: seq<string>) returns (n: nat)
    requires forall k :: k in keys ==> k in f
    requires !Write(f, keys).Balances?
    ensures n < |keys| && !Readable(f[keys[n]])
    ensures Write(f, keys) == if |f[keys[n]]| < 2 then SlicePanic(f[keys[n]]) else BadBalance(f[keys[n]])
    ensures forall m :: 0 <= m < n ==> Readable(f[keys[m]])
  {
    var init := keys[..|keys| - 1];
    WriteFails(f, init);
    if Write(f, init).Balances? {
      n := |keys| - 1;
      forall m | 0 <= m < n ensures Readable(f[keys[m]]) {
        assert keys[m] in init;
      }
    } else {
      n := WriteUnreadable(f, init);
    }
  }

  // ---------- Accounts listed twice ----------

  lemma {:induction false} CountTwice<T>(s: seq<T>, x: T)
    ensures multiset(s)[x] >= 2 <==> exists i, j :: 0 <= i < j < |s| && s[i] == x && s[j] == x
  {
    if s != [] {
      var n := |s| - 1;
      CountTwice(s[..n], x);
      CountSnoc(s[..n], s[n], x);
      assert s == s[..n] + [s[n]];
      if s[n] == x && x in s[..n] {
        var i :| 0 <= i < n && s[..n][i] == x;
        assert s[i] == x;
      }
      if i, j :| 0 <= i < j < |s| && s[i] == x && s[j] == x {
        assert s[..n][i] == x;
        assert j < n ==> s[..n][j] == x;
      }
    }
  }

  /** Two different keys name the same address. */
  predicate Clash(alloc: Allocation, k: string, l: string) {
    k in alloc && l in alloc && k != l && HexToAddress(k) == HexToAddress(l)
  }

  /** The keys of `order` that name the address `a`. */
  function KeysFor(order: seq<string>, a: Address): set<string> {
    if order == [] then {}
    else KeysFor(order[..|order| - 1], a) + if HexToAddress(order[|order| - 1]) == a then {order[|order| - 1]} else {}
  }

  lemma {:induction false} KeysForIs(order: seq<string>, a: Address)
    ensures forall k :: k in KeysFor(order, a) <==> k in order && HexToAddress(k) == a
  {
    if order != [] {
      KeysForIs(order[..|order| - 1], a);
    }
  }

  lemma {:induction false} TimesIs(order: seq<string>, a: Address)
    requires NoDuplicates(order)
    ensures Times(order, a) == |KeysFor(order, a)|
  {
    if order != [] {
      var n := |order| - 1;
      TimesIs(order[..n], a);
      KeysForIs(order[..n], a);
      assert order[n] !in KeysFor(order[..n], a);
    }
  }

  lemma {:induction false} TimesTwice(order: seq<string>, a: Address)
    requires NoDuplicates(order)
    ensures Times(order, a) >= 1 <==> exists k :: k in order && HexToAddress(k) == a
    ensures Times(order, a) >= 2 <==>
              exists k, l :: k in order && l in order && k != l && HexToAddress(k) == a && HexToAddress(l) == a
  {
    TimesIs(order, a);
    KeysForIs(order, a);
    TwoElements(KeysFor(order, a));
  }

  lemma {:induction false} TwoElements(s: set<string>)
    ensures |s| >= 1 <==> exists k :: k in s
    ensures |s| >= 2 <==> exists k, l :: k in s && l in s && k != l
  {
    if k :| k in s {
      assert |s - {k}| == |s| - 1;
      if l :| l in s && l != k {
        assert l in s - {k};
      } else {
        assert s == {k};
      }
      if |s| >= 2 {
        assert exists l :: l in s - {k};
      }
    }
  }

  lemma {:induction false} CountOf(alloc: Allocation, order: seq<string>, upper: Casing, list: seq<Balance>,
                                   a: Address, v: int)
    requires AllValid(alloc) && Visits(order, alloc)
    requires Generate(alloc, order, upper) == Balances(list)
    ensures multiset(list)[Balance(Text(a, upper), v)]
         == if v != 0 && v == Owes(alloc, order, a) then Times(order, a) else 0
  {
    GenerateCounts(alloc, order, upper);
  }

  /** Two entries of `list` are for the account `x`. */
  ghost predicate Twice(list: seq<Balance>, x: string) {
    exists i, j :: 0 <= i < j < |list| && list[i].account == x && list[j].account == x
  }

  /** An account is listed twice exactly when two keys name its address and the text
      the address is given is not zero. */
  lemma {:induction false} ListedTwice(alloc: Allocation, order: seq<string>, upper: Casing, list: seq<Balance>,
                                       a: Address)
    requires AllValid(alloc) && Visits(order, alloc)
    requires Generate(alloc, order, upper) == Balances(list)
    ensures Twice(list, Text(a, upper)) <==> Times(order, a) >= 2 && Owes(alloc, order, a) != 0
  {
    var x, v := Text(a, upper), Owes(alloc, order, a);
    forall b | b in list && b.account == x ensures b.value == v != 0 {
      CountOf(alloc, order, upper, list, a, b.value);
      assert b == Balance(x, b.value);
    }
    CountOf(alloc, order, upper, list, a, v);
    TwiceCounted(list, x, v);
  }

  /** When all entries for `x` carry the same balance. */
  lemma {:induction false} TwiceCounted(list: seq<Balance>, x: string, v: int)
    requires forall b :: b in list && b.account == x ==> b.value == v
    ensures Twice(list, x) <==> multiset(list)[Balance(x, v)] >= 2
  {
    CountTwice(list, Balance(x, v));
    if i, j :| 0 <= i < j < |list| && list[i].account == x && list[j].account == x {
      assert list[i] in list && list[j] in list;
      assert list[i] == Balance(x, v) && list[j] == Balance(x, v);
    }
  }

  /** No account is listed twice if and only if whenever two keys name one address,
      the text that address is given, which is that of the last such key in the
      iteration order, is zero. */
  lemma {:induction false} DuplicatesAreListedTwice(alloc: Allocation, order: seq<string>, upper: Casing)
    requires AllValid(alloc) && Visits(order, alloc)
    requires Generate(alloc, order, upper).Balances?
    ensures NoDuplicates(Accounts(Generate(alloc, order, upper).list))
       <==> forall k, l :: Clash(alloc, k, l) ==> Owes(alloc, order, HexToAddress(k)) == 0
  {
    var list := Generate(alloc, order, upper).list;
    if i, j :| 0 <= i < j < |list| && Accounts(list)[i] == Accounts(list)[j] {
      var a := NamedBy(alloc, order, upper, list, i);
      assert Twice(list, Text(a, upper));
      ListedTwice(alloc, order, upper, list, a);
      TimesTwice(order, a);
      var k, l :| k in order && l in order && k != l && HexToAddress(k) == a && HexToAddress(l) == a;
      assert Clash(alloc, k, l) && Owes(alloc, order, HexToAddress(k)) != 0;
    }
    if k, l :| Clash(alloc, k, l) && Owes(alloc, order, HexToAddress(k)) != 0 {
      ClashListed(alloc, order, upper, list, k, l);
    }
  }

  /** Every account listed is the name of an address. */
  lemma {:induction false} NamedBy(alloc: Allocation, order: seq<string>, upper: Casing, list: seq<Balance>, i: nat)
    returns (a: Address)
    requires AllValid(alloc) && Visits(order, alloc)
    requires Generate(alloc, order, upper) == Balances(list) && i < |list|
    ensures list[i].account == Text(a, upper)
  {
    GenerateCounts(alloc, order, upper);
    assert Accounts(list)[i] in Names(order, upper);
    var n :| 0 <= n < |order| && Names(order, upper)[n] == list[i].account;
    a := HexToAddress(order[n]);
  }

  lemma {:induction false} ClashListed(alloc: Allocation, order: seq<string>, upper: Casing, list: seq<Balance>,
                                       k: string, l: string)
    requires AllValid(alloc) && Visits(order, alloc)
    requires Generate(alloc, order, upper) == Balances(list)
    requires Clash(alloc, k, l) && Owes(alloc, order, HexToAddress(k)) != 0
    ensures !NoDuplicates(Accounts(list))
  {
    assert k in alloc.Keys && l in alloc.Keys;
    TimesTwice(order, HexToAddress(k));
    ListedTwice(alloc, order, upper, list, HexToAddress(k));
    var x := Text(HexToAddress(k), upper);
    var i, j :| 0 <= i < j < |list| && list[i].account == x && list[j].account == x;
    assert Accounts(list)[i] == Accounts(list)[j];
  }

  // ---------- Distinct addresses ----------

  /** The keys of a genesis allocation name pairwise distinct addresses. */
  ghost predicate DistinctAddresses(alloc: Allocation) {
    forall k, l :: !Clash(alloc, k, l)
  }

  lemma {:induction false} AscendingStrictly(s: seq<string>)
    requires Ascending(s) && NoDuplicates(s)
    ensures StrictlyAscending(s)
  {
    forall i, j | 0 <= i < j < |s| ensures Precedes(s[i], s[j]) {
      assert s[i] != s[j];
    }
  }

  /** Every key is then the only one for its address. */
  lemma {:induction false} OwnText(alloc: Allocation, order: seq<string>, k: string)
    requires DistinctAddresses(alloc) && Visits(order, alloc) && k in alloc
    ensures TextFor(alloc, order, HexToAddress(k)) == Some(alloc[k]) && Times(order, HexToAddress(k)) == 1
  {
    assert k in alloc.Keys;
    TimesTwice(order, HexToAddress(k));
    forall l, m | l in order && m in order && HexToAddress(l) == HexToAddress(m) ensures l == m {
      assert !Clash(alloc, l, m);
    }
  }

  /** The total of the balance texts of the accounts in `keys`. */
  ghost function TotalOf(formatted: map<string, string>, keys: seq<string>): int
    requires forall k :: k in keys ==> k in formatted && Readable(formatted[k])
  {
    if keys == [] then 0
    else TotalOf(formatted, keys[..|keys| - 1]) + ReadBalance(formatted[keys[|keys| - 1]])
  }

  lemma {:induction false} WriteSum(formatted: map<string, string>, keys: seq<string>)
    requires forall k :: k in keys ==> k in formatted && Readable(formatted[k])
    requires Write(formatted, keys).Balances?
    ensures SumOf(Write(formatted, keys).list) == TotalOf(formatted, keys)
  {
    if keys != [] {
      var n := |keys| - 1;
      var list := Write(formatted, keys[..n]).list;
      WriteSum(formatted, keys[..n]);
      assert (list + [Balance(keys[n], ReadBalance(formatted[keys[n]]))])[..|list|] == list;
    }
  }

  /** The total of the balance texts of the keys in `order`. */
  ghost function TotalAlloc(alloc: Allocation, order: seq<string>): int
    requires forall k :: k in order ==> k in alloc && Readable(alloc[k])
  {
    if order == [] then 0
    else TotalAlloc(alloc, order[..|order| - 1]) + ReadBalance(alloc[order[|order| - 1]])
  }

  lemma {:induction false} TotalInsert(f: map<string, string>, x: string, s: seq<string>)
    requires forall k :: k in s ==> k in f && Readable(f[k])
    requires x in f && Readable(f[x])
    requires forall k :: k in Insert(x, s) ==> k in f && Readable(f[k])
    ensures TotalOf(f, Insert(x, s)) == TotalOf(f, s) + ReadBalance(f[x])
  {
    if s == [] || !Less(s[0], x) {
      TotalCons(f, x, s);
      assert Insert(x, s) == [x] + s;
    } else {
      InsertContents(x, s[1..]);
      TotalInsert(f, x, s[1..]);
      TotalCons(f, s[0], s[1..]);
      TotalCons(f, s[0], Insert(x, s[1..]));
      assert s == [s[0]] + s[1..];
    }
  }

  lemma {:induction false} TotalCons(f: map<string, string>, x: string, s: seq<string>)
    requires forall k :: k in [x] + s ==> k in f && Readable(f[k])
    requires forall k :: k in s ==> k in f && Readable(f[k])
    requires x in f && Readable(f[x])
    ensures TotalOf(f, [x] + s) == ReadBalance(f[x]) + TotalOf(f, s)
  {
    var n := |s|;
    if s == [] {
      assert [x] + s == [x] && [x][..0] == [];
    } else {
      assert ([x] + s)[..n] == [x] + s[..n - 1];
      TotalCons(f, x, s[..n - 1]);
    }
  }

  lemma {:induction false} TotalSort(f: map<string, string>, s: seq<string>)
    requires forall k :: k in s ==> k in f && Readable(f[k])
    requires forall k :: k in Sort(s) ==> k in f && Readable(f[k])
    ensures TotalOf(f, Sort(s)) == TotalOf(f, s)
  {
    if s != [] {
      var n := |s| - 1;
      SortContents(s[..n]);
      TotalSort(f, s[..n]);
      TotalInsert(f, s[n], Sort(s[..n]));
    }
  }

  lemma {:induction false} TotalNames(alloc: Allocation, order: seq<string>, upper: Casing, f: map<string, string>)
    requires forall k :: k in order ==> k in alloc && Readable(alloc[k])
    requires forall k :: k in order ==> Name(k, upper) in f && f[Name(k, upper)] == alloc[k]
    requires forall a :: a in Names(order, upper) ==> a in f && Readable(f[a])
    ensures TotalOf(f, Names(order, upper)) == TotalAlloc(alloc, order)
  {
    if order != [] {
      var n := |order| - 1;
      assert Names(order, upper)[..n] == Names(order[..n], upper);
      TotalNames(alloc, order[..n], upper, f);
    }
  }

  /** With distinct, valid addresses and readable balances the file lists, strictly
      ascending by checksummed address, exactly the non-zero allocations, once
      each, and its values add up to the total allocation. */
  lemma {:induction false} GenerateContents(alloc: Allocation, order: seq<string>, upper: Casing)
    requires DistinctAddresses(alloc) && AllValid(alloc)
    requires Visits(order, alloc)
    ensures Generate(alloc, order, upper).Balances? <==> forall k :: k in alloc ==> Readable(alloc[k])
    ensures Generate(alloc, order, upper).Balances? ==>
              var list := Generate(alloc, order, upper).list;
              StrictlyAscending(Accounts(list))
              && (forall a, v :: Balance(a, v) in list <==>
                    exists k :: k in alloc && Name(k, upper) == a && ReadBalance(alloc[k]) == v && v != 0)
              && SumOf(list) == TotalAlloc(alloc, order)
  {
    GenerateSucceeds(alloc, order, upper);
    OwnTextsReadable(alloc, order);
    if Generate(alloc, order, upper).Balances? {
      var list := Generate(alloc, order, upper).list;
      GenerateCounts(alloc, order, upper);
      DuplicatesAreListedTwice(alloc, order, upper);
      AscendingStrictly(Accounts(list));
      forall a, v
        ensures Balance(a, v) in list <==>
                  exists k :: k in alloc && Name(k, upper) == a && ReadBalance(alloc[k]) == v && v != 0
      {
        ListedIff(alloc, order, upper, list, a, v);
      }
      GenerateTotal(alloc, order, upper);
    }
  }

  lemma {:induction false} OwnTextsReadable(alloc: Allocation, order: seq<string>)
    requires DistinctAddresses(alloc) && Visits(order, alloc)
    ensures AllReadable(alloc, order) <==> forall k :: k in alloc ==> Readable(alloc[k])
  {
    forall k | k in alloc ensures TextFor(alloc, order, HexToAddress(k)) == Some(alloc[k]) {
      OwnText(alloc, order, k);
    }
  }

  lemma {:induction false} ListedIff(alloc: Allocation, order: seq<string>, upper: Casing, list: seq<Balance>,
                                     x: string, v: int)
    requires DistinctAddresses(alloc) && AllValid(alloc) && Visits(order, alloc)
    requires Generate(alloc, order, upper) == Balances(list)
    ensures Balance(x, v) in list <==>
              exists k :: k in alloc && Readable(alloc[k]) && Name(k, upper) == x
                          && ReadBalance(alloc[k]) == v && v != 0
  {
    GenerateCounts(alloc, order, upper);
    if Balance(x, v) in list {
      var i :| 0 <= i < |list| && list[i] == Balance(x, v);
      assert Accounts(list)[i] in Names(order, upper);
      var n :| 0 <= n < |order| && Names(order, upper)[n] == x;
      OwnText(alloc, order, order[n]);
      assert multiset(list)[Balance(Text(HexToAddress(order[n]), upper), v)] > 0;
    }
    if k :| k in alloc && Readable(alloc[k]) && Name(k, upper) == x && ReadBalance(alloc[k]) == v && v != 0 {
      OwnText(alloc, order, k);
      assert multiset(list)[Balance(Text(HexToAddress(k), upper), v)] > 0;
    }
  }

  lemma {:induction false} GenerateTotal(alloc: Allocation, order: seq<string>, upper: Casing)
    requires DistinctAddresses(alloc) && AllValid(alloc) && Visits(order, alloc)
    requires Generate(alloc, order, upper).Balances? && forall k :: k in alloc ==> Readable(alloc[k])
    ensures SumOf(Generate(alloc, order, upper).list) == TotalAlloc(alloc, order)
  {
    GenerateIs(alloc, order, upper);
    var f, keys := Collect(alloc, order, upper).formatted, Names(order, upper);
    forall k | k in order ensures Found(f, Name(k, upper)) == Some(alloc[k]) {
      OwnText(alloc, order, k);
      KeyText(alloc, order, upper, HexToAddress(k));
    }
    SortContents(keys);
    WriteSum(f, Sort(keys));
    TotalSort(f, keys);
    TotalNames(alloc, order, upper, f);
  }

  // ---------- Iteration orders ----------

  /** The names collected are the same in every order, but for their order. */
  lemma {:induction false} NamesSame(alloc: Allocation, o1: seq<string>, o2: seq<string>, upper: Casing)
    requires Visits(o1, alloc) && Visits(o2, alloc)
    ensures multiset(Names(o1, upper)) == multiset(Names(o2, upper))
  {
    forall x ensures multiset(Names(o1, upper))[x] == multiset(Names(o2, upper))[x] {
      if a :| Text(a, upper) == x {
        NamesCount(o1, upper, a);
        NamesCount(o2, upper, a);
        TimesSame(alloc, o1, o2, a);
      } else {
        NotNamed(o1, upper, x);
        NotNamed(o2, upper, x);
      }
    }
  }

  lemma {:induction false} NotNamed(order: seq<string>, upper: Casing, x: string)
    requires forall a :: Text(a, upper) != x
    ensures multiset(Names(order, upper))[x] == 0
  {
    forall i | 0 <= i < |order| ensures Names(order, upper)[i] != x {
      assert Text(HexToAddress(order[i]), upper) != x;
    }
  }

  lemma {:induction false} TimesSame(alloc: Allocation, o1: seq<string>, o2: seq<string>, a: Address)
    requires Visits(o1, alloc) && Visits(o2, alloc)
    ensures Times(o1, a) == Times(o2, a)
  {
    TimesIs(o1, a);
    TimesIs(o2, a);
    KeysForIs(o1, a);
    KeysForIs(o2, a);
    assert KeysFor(o1, a) == KeysFor(o2, a);
  }

  /** With distinct addresses the outcome does not depend on the iteration order,
      except for which of several invalid keys is named. */
  lemma {:induction false} OrderIndependent(alloc: Allocation, o1: seq<string>, o2: seq<string>, upper: Casing)
    requires DistinctAddresses(alloc)
    requires Visits(o1, alloc) && Visits(o2, alloc)
    ensures AllValid(alloc) ==> Generate(alloc, o1, upper) == Generate(alloc, o2, upper)
    ensures !AllValid(alloc) ==>
              Generate(alloc, o1, upper).InvalidAddress? && Generate(alloc, o2, upper).InvalidAddress?
  {
    if AllValid(alloc) {
      DistinctSame(alloc, o1, o2, upper);
    } else {
      InvalidFails(alloc, o1, upper);
      InvalidFails(alloc, o2, upper);
    }
  }

  lemma {:induction false} DistinctSame(alloc: Allocation, o1: seq<string>, o2: seq<string>, upper: Casing)
    requires DistinctAddresses(alloc) && AllValid(alloc)
    requires Visits(o1, alloc) && Visits(o2, alloc)
    ensures Generate(alloc, o1, upper) == Generate(alloc, o2, upper)
  {
    GenerateIs(alloc, o1, upper);
    GenerateIs(alloc, o2, upper);
    var f, g, keys := Collect(alloc, o1, upper).formatted, Collect(alloc, o2, upper).formatted, Names(o1, upper);
    NamesSame(alloc, o1, o2, upper);
    SortSame(keys, Names(o2, upper));
    SortContents(keys);
    forall x | x in Sort(keys) ensures x in f && x in g && f[x] == g[x] {
      var k := NamedKey(o1, upper, x);
      SameText(alloc, o1, o2, upper, k);
    }
    WriteSame(f, g, Sort(keys));
  }

  lemma {:induction false} SameText(alloc: Allocation, o1: seq<string>, o2: seq<string>, upper: Casing, k: string)
    requires DistinctAddresses(alloc) && AllValid(alloc)
    requires Visits(o1, alloc) && Visits(o2, alloc) && k in alloc
    ensures Collect(alloc, o1, upper).Collected? && Collect(alloc, o2, upper).Collected?
    ensures var f, g := Collect(alloc, o1, upper).formatted, Collect(alloc, o2, upper).formatted;
            Name(k, upper) in f && Name(k, upper) in g && f[Name(k, upper)] == g[Name(k, upper)]
  {
    OwnText(alloc, o1, k);
    OwnText(alloc, o2, k);
    KeyText(alloc, o1, upper, HexToAddress(k));
    KeyText(alloc, o2, upper, HexToAddress(k));
  }

  lemma {:induction false} InvalidFails(alloc: Allocation, order: seq<string>, upper: Casing)
    requires !AllValid(alloc) && Visits(order, alloc)
    ensures Generate(alloc, order, upper).InvalidAddress?
  {
    CollectFails(alloc, order, upper);
    var k :| k in alloc && !IsHexAddress(k);
    assert k in alloc.Keys;
  }

  lemma {:induction false} WriteSame(f: map<string, string>, g: map<string, string>, keys: seq<string>)
    requires forall k :: k in keys ==> k in f && k in g && f[k] == g[k]
    ensures Write(f, keys) == Write(g, keys)
  {
    if keys != [] {
      WriteSame(f, g, keys[..|keys| - 1]);
    }
  }

  // ---------- When the file is the same for every iteration order ----------

  /** The file that is written, if one is. */
  function Listing(r: Outcome): Option<seq<Balance>> {
    if r.Balances? then Some(r.list) else None
  }

  ghost predicate Deterministic(alloc: Allocation, upper: Casing) {
    forall o1, o2 :: Visits(o1, alloc) && Visits(o2, alloc) ==>
      Listing(Generate(alloc, o1, upper)) == Listing(Generate(alloc, o2, upper))
  }

  function Reading(text: string): Option<int> {
    if Readable(text) then Some(ReadBalance(text)) else None
  }

  /** Keys that name one address have texts that read the same. */
  ghost predicate Agreeing(alloc: Allocation) {
    forall k, l :: Clash(alloc, k, l) ==> Reading(alloc[k]) == Reading(alloc[l])
  }

  /** Some address has no readable text. */
  ghost predicate Hopeless(alloc: Allocation) {
    exists k :: k in alloc && AllUnreadable(alloc, HexToAddress(k))
  }

  ghost predicate AllUnreadable(alloc: Allocation, a: Address) {
    forall l :: l in alloc && HexToAddress(l) == a ==> !Readable(alloc[l])
  }

  lemma {:induction false} WriteAlike(f: map<string, string>, g: map<string, string>, keys: seq<string>)
    requires forall k :: k in keys ==> k in f && k in g && Reading(f[k]) == Reading(g[k])
    ensures Listing(Write(f, keys)) == Listing(Write(g, keys))
  {
    if keys != [] {
      WriteAlike(f, g, keys[..|keys| - 1]);
    }
  }

  lemma {:induction false} AgreeingSame(alloc: Allocation, o1: seq<string>, o2: seq<string>, upper: Casing)
    requires AllValid(alloc) && Agreeing(alloc)
    requires Visits(o1, alloc) && Visits(o2, alloc)
    ensures Listing(Generate(alloc, o1, upper)) == Listing(Generate(alloc, o2, upper))
  {
    GenerateIs(alloc, o1, upper);
    GenerateIs(alloc, o2, upper);
    var f, g, keys := Collect(alloc, o1, upper).formatted, Collect(alloc, o2, upper).formatted, Names(o1, upper);
    NamesSame(alloc, o1, o2, upper);
    SortSame(keys, Names(o2, upper));
    SortContents(keys);
    forall x | x in Sort(keys) ensures x in f && x in g && Reading(f[x]) == Reading(g[x]) {
      var k := NamedKey(o1, upper, x);
      AlikeTexts(alloc, o1, o2, upper, k);
    }
    WriteAlike(f, g, Sort(keys));
  }

  lemma {:induction false} AlikeTexts(alloc: Allocation, o1: seq<string>, o2: seq<string>, upper: Casing, key: string)
    requires AllValid(alloc) && Agreeing(alloc)
    requires Visits(o1, alloc) && Visits(o2, alloc) && key in o1
    ensures Collect(alloc, o1, upper).Collected? && Collect(alloc, o2, upper).Collected?
    ensures var f, g, x := Collect(alloc, o1, upper).formatted, Collect(alloc, o2, upper).formatted, Name(key, upper);
            x in f && x in g && Reading(f[x]) == Reading(g[x])
  {
    var a := HexToAddress(key);
    KeyText(alloc, o1, upper, a);
    KeyText(alloc, o2, upper, a);
    var k, l := LastNamed(o1, a), LastNamed(o2, a);
    assert k.value in alloc.Keys;
    assert k.value in o2 && l.Some?;
    assert k.value != l.value ==> Clash(alloc, k.value, l.value);
  }

  lemma {:induction false} HopelessFails(alloc: Allocation, order: seq<string>, upper: Casing)
    requires AllValid(alloc) && Hopeless(alloc) && Visits(order, alloc)
    ensures !Generate(alloc, order, upper).Balances?
  {
    var k :| k in alloc && AllUnreadable(alloc, HexToAddress(k));
    assert k in alloc.Keys;
    GenerateSucceeds(alloc, order, upper);
    assert TextFor(alloc, order, HexToAddress(k)).Some?;
  }

  /** Unless it is hopeless, an allocation has an order in which the key `k` decides
      for its address and every other address gets a readable text. */
  lemma {:induction false} OrderFor(alloc: Allocation, k: string) returns (order: seq<string>)
    requires !Hopeless(alloc) && k in alloc
    ensures Visits(order, alloc)
    ensures LastNamed(order, HexToAddress(k)) == Some(k)
    ensures forall a :: a != HexToAddress(k) && TextFor(alloc, order, a).Some? ==>
                          Readable(TextFor(alloc, order, a).value)
  {
    var bad := set l | l in alloc.Keys && l != k && !Readable(alloc[l]);
    var early := EnumerateRest([], {}, bad);
    assert [] + early == early;
    var late := EnumerateRest(early, bad, alloc.Keys - {k});
    order := early + late + [k];
    LastVisit(alloc, early + late, k);
    SplitVisit(alloc, early, late, bad, k);
    forall a | a != HexToAddress(k) && TextFor(alloc, order, a).Some? ensures Readable(TextFor(alloc, order, a).value) {
      LastInSecond(alloc, early, late, a, k);
    }
  }

  lemma {:induction false} LastVisit(alloc: Allocation, before: seq<string>, k: string)
    requires Enumerates(before, alloc.Keys - {k}) && k in alloc
    ensures Visits(before + [k], alloc)
    ensures forall a :: LastNamed(before + [k], a) == if a == HexToAddress(k) then Some(k) else LastNamed(before, a)
  {
    assert (before + [k])[..|before|] == before;
    forall l | l in before + [k] ensures l in alloc.Keys {
      assert l in before || l == k;
    }
  }

  lemma {:induction false} SplitVisit(alloc: Allocation, early: seq<string>, late: seq<string>, bad: set<string>,
                                      k: string)
    requires bad == set l | l in alloc.Keys && l != k && !Readable(alloc[l])
    requires Enumerates(early, bad) && Enumerates(early + late, alloc.Keys - {k})
    ensures forall l :: l in early ==> l in alloc && !Readable(alloc[l])
    ensures forall l :: l in late ==> l in alloc && Readable(alloc[l])
  {
    forall l | l in late ensures l in alloc && Readable(alloc[l]) {
      assert l in early + late;
      HalvesApart(early, late, l);
    }
  }

  lemma {:induction false} HalvesApart(x: seq<string>, y: seq<string>, l: string)
    requires NoDuplicates(x + y) && l in y
    ensures l !in x
  {
    var j :| 0 <= j < |y| && y[j] == l;
    forall i | 0 <= i < |x| ensures x[i] != l {
      assert (x + y)[i] != (x + y)[|x| + j];
    }
  }

  lemma {:induction false} LastInSecond(alloc: Allocation, early: seq<string>, late: seq<string>, a: Address, k: string)
    requires !Hopeless(alloc) && Enumerates(early + late, alloc.Keys - {k}) && a != HexToAddress(k)
    requires forall l :: l in early ==> l in alloc && !Readable(alloc[l])
    requires forall l :: l in late ==> l in alloc && Readable(alloc[l])
    requires LastNamed(early + late, a).Some?
    ensures LastNamed(early + late, a).value in late
  {
    var l := LastNamed(early + late, a).value;
    assert l in alloc && !AllUnreadable(alloc, HexToAddress(l));
    var m :| m in alloc && HexToAddress(m) == a && Readable(alloc[m]);
    assert m in alloc.Keys - {k} && m in early + late && m in late;
    LastConcat(early, late, a);
  }

  lemma {:induction false} LastConcat(x: seq<string>, y: seq<string>, a: Address)
    ensures LastNamed(x + y, a) == if LastNamed(y, a).Some? then LastNamed(y, a) else LastNamed(x, a)
  {
    if y == [] {
      assert x + y == x;
    } else {
      assert (x + y)[..|x + y| - 1] == x + y[..|y| - 1];
      LastConcat(x, y[..|y| - 1], a);
    }
  }

  /** Two keys of one address that read differently, the first of them readable: the
      file depends on which comes last. */
  lemma {:induction false} DisagreeingDiffers(alloc: Allocation, upper: Casing, k: string, l: string)
    requires AllValid(alloc) && !Hopeless(alloc) && Clash(alloc, k, l)
    requires Readable(alloc[k]) && Reading(alloc[k]) != Reading(alloc[l])
    ensures !Deterministic(alloc, upper)
  {
    var o1 := OrderFor(alloc, k);
    var o2 := OrderFor(alloc, l);
    GenerateSucceeds(alloc, o1, upper);
    GenerateSucceeds(alloc, o2, upper);
    assert TextFor(alloc, o1, HexToAddress(k)) == Some(alloc[k]);
    assert TextFor(alloc, o2, HexToAddress(k)) == Some(alloc[l]);
    if Readable(alloc[l]) {
      ListsDiffer(alloc, o1, o2, upper, HexToAddress(k));
    }
    assert Listing(Generate(alloc, o1, upper)) != Listing(Generate(alloc, o2, upper));
  }

  lemma {:induction false} ListsDiffer(alloc: Allocation, o1: seq<string>, o2: seq<string>, upper: Casing, a: Address)
    requires AllValid(alloc) && Visits(o1, alloc) && Visits(o2, alloc)
    requires Generate(alloc, o1, upper).Balances? && Generate(alloc, o2, upper).Balances?
    requires TextFor(alloc, o1, a).Some? && TextFor(alloc, o2, a).Some? && Owes(alloc, o1, a) != Owes(alloc, o2, a)
    ensures Generate(alloc, o1, upper) != Generate(alloc, o2, upper)
  {
    var v := if Owes(alloc, o1, a) != 0 then Owes(alloc, o1, a) else Owes(alloc, o2, a);
    var b := Balance(Text(a, upper), v);
    GenerateCounts(alloc, o1, upper);
    GenerateCounts(alloc, o2, upper);
    NamesCount(o1, upper, a);
    NamesCount(o2, upper, a);
    assert multiset(Generate(alloc, o1, upper).list)[b] != multiset(Generate(alloc, o2, upper).list)[b];
  }

  /** The file does not depend on the iteration order if and only if an address is
      invalid or has no readable text, so that none is ever written, or all texts of
      one address read the same. */
  lemma {:induction false} DeterministicIff(alloc: Allocation, upper: Casing)
    ensures Deterministic(alloc, upper) <==> !AllValid(alloc) || Hopeless(alloc) || Agreeing(alloc)
  {
    forall o1, o2 | Visits(o1, alloc) && Visits(o2, alloc) && (!AllValid(alloc) || Hopeless(alloc) || Agreeing(alloc))
      ensures Listing(Generate(alloc, o1, upper)) == Listing(Generate(alloc, o2, upper))
    {
      if !AllValid(alloc) {
        InvalidFails(alloc, o1, upper);
        InvalidFails(alloc, o2, upper);
      } else if Hopeless(alloc) {
        HopelessFails(alloc, o1, upper);
        HopelessFails(alloc, o2, upper);
      } else {
        AgreeingSame(alloc, o1, o2, upper);
      }
    }
    if AllValid(alloc) && !Hopeless(alloc) && !Agreeing(alloc) {
      var k, l :| Clash(alloc, k, l) && Reading(alloc[k]) != Reading(alloc[l]);
      if Readable(alloc[k]) {
        DisagreeingDiffers(alloc, upper, k, l);
      } else {
        DisagreeingDiffers(alloc, upper, l, k);
      }
    }
  }

  // ---------- One address, two keys ----------

  /** An allocation with two keys for one address that differ in letter case. */
  function TwoKeys(a: Address, upper: Casing, v: nat, w: nat): Allocation {
    map[Text(a, upper) := EncodeBig(v), Text(a, Opposite(upper)) := EncodeBig(w)]
  }

  lemma {:induction false} TwoKeysDiffer(a: Address, upper: Casing)
    requires a % 16 >= 10
    ensures Text(a, Opposite(upper)) != Text(a, upper)
  {
    WrongCaseAccepted(a, upper);
    LastDigit(a, 40);
    assert FixedDigits(a, 40)[39] in FixedDigits(a, 40);
  }

  lemma {:induction false} LastDigit(n: nat, w: nat)
    requires w > 0 && n % 16 >= 10
    ensures FixedDigits(n, w)[w - 1] > '9'
  {
  }

  /** For every address that ends in a letter digit and all positive balances: it is
      listed twice, with the same balance, that of the key that happens to be
      visited last. The allocations add up to v + w, the file to 2 * w or 2 * v. */
  lemma {:induction false} TwoKeysListedTwice(a: Address, upper: Casing, v: nat, w: nat)
    requires a % 16 >= 10 && v > 0 && w > 0
    ensures var k, l, x := Text(a, upper), Text(a, Opposite(upper)), Text(a, upper);
            var alloc := TwoKeys(a, upper, v, w);
            Visits([k, l], alloc) && Visits([l, k], alloc)
            && Generate(alloc, [k, l], upper) == Balances([Balance(x, w), Balance(x, w)])
            && Generate(alloc, [l, k], upper) == Balances([Balance(x, v), Balance(x, v)])
  {
    TwoKeysDiffer(a, upper);
    ReadsQuantities(v);
    ReadsQuantities(w);
    TextRoundTrip(a, upper);
    TextRoundTrip(a, Opposite(upper));
    PairListed(TwoKeys(a, upper, v, w), Text(a, upper), Text(a, Opposite(upper)), a, upper);
    PairListed(TwoKeys(a, upper, v, w), Text(a, Opposite(upper)), Text(a, upper), a, upper);
  }

  lemma {:induction false} PairListed(alloc: Allocation, k: string, l: string, a: Address, upper: Casing)
    requires k in alloc && l in alloc && k != l && alloc.Keys == {k, l}
    requires IsHexAddress(k) && IsHexAddress(l) && HexToAddress(k) == a && HexToAddress(l) == a
    requires Readable(alloc[l]) && ReadBalance(alloc[l]) != 0
    ensures Visits([k, l], alloc)
    ensures var b := Balance(Text(a, upper), ReadBalance(alloc[l]));
            Generate(alloc, [k, l], upper) == Balances([b, b])
  {
    CollectPair(alloc, [k, l], a, Text(a, upper), upper);
    SortPair(Text(a, upper));
    WritePair(map[Text(a, upper) := alloc[l]], Text(a, upper));
  }

  lemma {:induction false} CollectPair(alloc: Allocation, order: seq<string>, a: Address, x: string, upper: Casing)
    requires |order| == 2 && Within(order, alloc) && x == Text(a, upper)
    requires forall k :: k in order ==> IsHexAddress(k) && HexToAddress(k) == a
    ensures Collect(alloc, order, upper) == Collected([x, x], map[x := alloc[order[1]]])
  {
    var none: seq<string>, one := [], [order[0]];
    CollectFirst(alloc, none, order[0], upper);
    assert none + [order[0]] == one && one + [order[1]] == order;
    CollectNext(alloc, one, order[1], upper);
  }

  lemma {:induction false} CollectFirst(alloc: Allocation, none: seq<string>, k: string, upper: Casing)
    requires none == [] && k in alloc && IsHexAddress(k)
    ensures Collect(alloc, none + [k], upper) == Collected([Name(k, upper)], map[Name(k, upper) := alloc[k]])
  {
    CollectNext(alloc, none, k, upper);
  }

  lemma {:induction false} CollectNext(alloc: Allocation, order: seq<string>, k: string, upper: Casing)
    requires Within(order, alloc) && k in alloc && IsHexAddress(k)
    requires Collect(alloc, order, upper).Collected?
    ensures var c, x := Collect(alloc, order, upper), Name(k, upper);
            Collect(alloc, order + [k], upper) == Collected(c.keys + [x], c.formatted[x := alloc[k]])
  {
    assert (order + [k])[..|order|] == order;
  }

  lemma {:induction false} SortPair(x: string)
    ensures Sort([x, x]) == [x, x]
  {
    var one := [x];
    assert [x, x][..1] == one && one[..0] == [];
    assert Sort(one) == one;
    LessIrreflexive(x);
  }

  lemma {:induction false} WritePair(f: map<string, string>, x: string)
    requires x in f && Readable(f[x]) && ReadBalance(f[x]) != 0
    ensures Write(f, [x, x]) == Balances([Balance(x, ReadBalance(f[x])), Balance(x, ReadBalance(f[x]))])
  {
    var one := [x];
    assert [x, x][..1] == one && one[..0] == [];
    assert Write(f, one) == Balances([Balance(x, ReadBalance(f[x]))]);
  }
}
