/** The column settings of the customer table: order, visibility and the stored copy. */
module ColumnSettings {

  datatype Key = Code | FullName | Phone | Email | CustomerStage | Segment | Source
               | TotalOrders | TotalSpent | Status | LastContactAt | UpdatedAt | Tags

  const DEFAULT_ORDER: seq<Key> :=
    [Code, FullName, Phone, Email, CustomerStage, Segment, Source,
     TotalOrders, TotalSpent, Status, LastContactAt, UpdatedAt, Tags]

  const DEFAULT_HIDDEN: seq<Key> := [Code, Segment, Source, TotalOrders, LastContactAt, Tags]

  datatype Direction = Up | Down

  datatype State = State(order: seq<Key>, hidden: seq<Key>)

  /** A string found in the stored settings: the name of a column, or something else. */
  datatype Stored = Known(key: Key) | Unknown(text: string)

  ghost predicate NoDup<T>(s: seq<T>) {
    forall i, j :: 0 <= i < j < |s| ==> s[i] != s[j]
  }

  /** Each column exactly once. */
  ghost predicate Permutation(order: seq<Key>) {
    NoDup(order) && forall k: Key :: k in order
  }

  /** Every column has one place, no column is hidden twice, one is visible. */
  ghost predicate Valid(s: State) {
    Permutation(s.order) && NoDup(s.hidden) && |s.hidden| < |s.order|
  }

  // ----- the handlers as functions of the state

  function IndexOf(order: seq<Key>, key: Key): (i: int)
    ensures -1 <= i < |order|
    ensures i >= 0 ==> order[i] == key && key !in order[..i]
    ensures i < 0 <==> key !in order
  {
    if order == [] then -1
    else if order[0] == key then 0
    else
      var rest := IndexOf(order[1..], key);
      if rest < 0 then -1 else rest + 1
  }

  /** `next.splice(from, 1)` and `next.splice(to, 0, item)` */
  function Splice(order: seq<Key>, from: nat, to: nat): seq<Key>
    requires from < |order| && to < |order|
  {
    var rest := order[..from] + order[from + 1..];
    rest[..to] + [order[from]] + rest[to..]
  }

  function Move(order: seq<Key>, key: Key, direction: Direction): seq<Key> {
    var current := IndexOf(order, key);
    var target := if direction == Up then current - 1 else current + 1;
    if current < 0 || target < 0 || target >= |order| then order
    else Splice(order, current, target)
  }

  function Without(keys: seq<Key>, key: Key): seq<Key> {
    if keys == [] then []
    else (if keys[0] == key then [] else [keys[0]]) + Without(keys[1..], key)
  }

  function Toggle(s: State, key: Key): State {
    if key in s.hidden then s.(hidden := Without(s.hidden, key))
    else if |s.order| - |s.hidden| <= 1 then s
    else s.(hidden := s.hidden + [key])
  }

  /** The columns shown, in order. */
  function Visible(s: State): seq<Key> {
    Minus(s.order, s.hidden)
  }

  function Minus(keys: seq<Key>, out: seq<Key>): seq<Key> {
    if keys == [] then []
    else (if keys[0] in out then [] else [keys[0]]) + Minus(keys[1..], out)
  }

  /** The stored strings that name a column. */
  function KnownKeys(stored: seq<Stored>): seq<Key> {
    if stored == [] then []
    else (if stored[0].Known? then [stored[0].key] else []) + KnownKeys(stored[1..])
  }

  /** `Array.from(new Set(keys))`: first occurrences, in order. */
  function Unique(keys: seq<Key>): seq<Key> {
    if keys == [] then []
    else
      var before := Unique(keys[..|keys| - 1]);
      if keys[|keys| - 1] in before then before else before + [keys[|keys| - 1]]
  }

  function Hydrate(s: State, order: seq<Stored>, hidden: seq<Stored>): State {
    var validOrder := KnownKeys(order);
    var uniqueHidden := Unique(KnownKeys(hidden));
    State(if |validOrder| > 0 then validOrder + Minus(DEFAULT_ORDER, validOrder) else s.order,
          if |uniqueHidden| < |DEFAULT_ORDER| then uniqueHidden else s.hidden)
  }

  function Names(keys: seq<Key>): (stored: seq<Stored>)
    ensures |stored| == |keys| && forall i :: 0 <= i < |keys| ==> stored[i] == Known(keys[i])
  {
    seq(|keys|, i requires 0 <= i < |keys| => Known(keys[i]))
  }

  datatype Command = MoveColumn(key: Key, direction: Direction) | ToggleColumn(key: Key)

  function Do(s: State, c: Command): State {
    match c
    case MoveColumn(key, direction) => s.(order := Move(s.order, key, direction))
    case ToggleColumn(key) => Toggle(s, key)
  }

  function Run(s: State, cs: seq<Command>): State
    decreases |cs|
  {
    if cs == [] then s else Run(Do(s, cs[0]), cs[1..])
  }

  // ----- the component

  class Settings {
    var customerColumnOrder: seq<Key>
    var hiddenCustomerColumns: seq<Key>

    function Now(): State
      reads this
    {
      State(customerColumnOrder, hiddenCustomerColumns)
    }

    constructor ()
      ensures Now() == State(DEFAULT_ORDER, DEFAULT_HIDDEN)
    {
      customerColumnOrder, hiddenCustomerColumns := DEFAULT_ORDER, DEFAULT_HIDDEN;
    }

    /** An effective move exchanges two neighbours; any other changes nothing. */
    method OnMoveColumn(key: Key, direction: Direction)
      modifies `customerColumnOrder
      ensures customerColumnOrder == Move(old(customerColumnOrder), key, direction)
      ensures var i := IndexOf(old(customerColumnOrder), key);
              var j := if direction == Up then i - 1 else i + 1;
              if i < 0 || j < 0 || j >= |old(customerColumnOrder)| then customerColumnOrder == old(customerColumnOrder)
              else customerColumnOrder == old(customerColumnOrder[i := customerColumnOrder[j]][j := customerColumnOrder[i]])
    {
      var currentIndex := IndexOf(customerColumnOrder, key);
      if currentIndex < 0 {
        return;
      }
      var targetIndex := if direction == Up then currentIndex - 1 else currentIndex + 1;
      if targetIndex < 0 || targetIndex >= |customerColumnOrder| {
        return;
      }
      SpliceSwaps(customerColumnOrder, currentIndex, targetIndex);
      var next := customerColumnOrder;
      var item := next[currentIndex];
      next := next[..currentIndex] + next[currentIndex + 1..];
      next := next[..targetIndex] + [item] + next[targetIndex..];
      customerColumnOrder := next;
    }

    method OnToggleColumnVisibility(key: Key)
      modifies `hiddenCustomerColumns
      ensures Now() == Toggle(old(Now()), key)
      ensures key in old(hiddenCustomerColumns) ==> key !in hiddenCustomerColumns
      ensures key !in old(hiddenCustomerColumns) ==>
                (key in hiddenCustomerColumns <==> |customerColumnOrder| - |old(hiddenCustomerColumns)| > 1)
      ensures forall k :: k != key ==> (k in hiddenCustomerColumns <==> k in old(hiddenCustomerColumns))
      ensures Valid(old(Now())) ==> Valid(Now())
    {
      ToggleShows(Now(), key);
      if key in hiddenCustomerColumns {
        hiddenCustomerColumns := Without(hiddenCustomerColumns, key);
        return;
      }
      var visibleCount := |customerColumnOrder| - |hiddenCustomerColumns|;
      if visibleCount <= 1 {
        return;
      }
      hiddenCustomerColumns := hiddenCustomerColumns + [key];
    }

    method LoadSettings(order: seq<Stored>, hidden: seq<Stored>)
      modifies this
      ensures Now() == Hydrate(old(Now()), order, hidden)
      ensures Valid(old(Now())) ==> (Valid(Now()) <==> NoDup(KnownKeys(order)))
    {
      if Valid(Now()) {
        HydrateValid(Now(), order, hidden);
      }
      var validOrder := KnownKeys(order);
      var uniqueHidden := Unique(KnownKeys(hidden));
      if |validOrder| > 0 {
        customerColumnOrder := validOrder + Minus(DEFAULT_ORDER, validOrder);
      }
      if |uniqueHidden| < |DEFAULT_ORDER| {
        hiddenCustomerColumns := uniqueHidden;
      }
    }
  }

  // ----- sequences without repetition

  lemma DefaultIsPermutation()
    ensures Permutation(DEFAULT_ORDER)
  {
    forall k: Key ensures k in DEFAULT_ORDER {
      match k
      case Code => assert DEFAULT_ORDER[0] == k;
      case FullName => assert DEFAULT_ORDER[1] == k;
      case Phone => assert DEFAULT_ORDER[2] == k;
      case Email => assert DEFAULT_ORDER[3] == k;
      case CustomerStage => assert DEFAULT_ORDER[4] == k;
      case Segment => assert DEFAULT_ORDER[5] == k;
      case Source => assert DEFAULT_ORDER[6] == k;
      case TotalOrders => assert DEFAULT_ORDER[7] == k;
      case TotalSpent => assert DEFAULT_ORDER[8] == k;
      case Status => assert DEFAULT_ORDER[9] == k;
      case LastContactAt => assert DEFAULT_ORDER[10] == k;
      case UpdatedAt => assert DEFAULT_ORDER[11] == k;
      case Tags => assert DEFAULT_ORDER[12] == k;
    }
  }

  lemma NoDupCons<T>(x: T, s: seq<T>)
    ensures NoDup([x] + s) <==> x !in s && NoDup(s)
  {
    var t := [x] + s;
    assert forall i :: 0 <= i < |s| ==> t[i + 1] == s[i];
    if NoDup(t) {
      forall i | 0 <= i < |s| ensures s[i] != x {
        assert t[0] == x && t[i + 1] == s[i];
      }
    }
  }

  lemma HasElement<T>(s: seq<T>)
    requires s != []
    ensures exists x :: x in s
  {
    assert s[0] in s;
  }

  lemma NoDupSnoc<T>(s: seq<T>, x: T)
    ensures NoDup(s + [x]) <==> x !in s && NoDup(s)
  {
    var t := s + [x];
    if NoDup(t) {
      forall i | 0 <= i < |s| ensures s[i] != x {
        assert t[i] == s[i] && t[|s|] == x;
      }
      forall i, j | 0 <= i < j < |s| ensures s[i] != s[j] {
        assert t[i] == s[i] && t[j] == s[j];
      }
    }
  }

  lemma {:induction false} MinusContents(keys: seq<Key>, out: seq<Key>)
    ensures forall k :: k in Minus(keys, out) <==> k in keys && k !in out
    ensures NoDup(keys) ==> NoDup(Minus(keys, out))
  {
    if keys == [] {
    } else {
      MinusContents(keys[1..], out);
      NoDupCons(keys[0], keys[1..]);
      NoDupCons(keys[0], Minus(keys[1..], out));
      assert keys == [keys[0]] + keys[1..];
    }
  }

  lemma {:induction false} WithoutContents(keys: seq<Key>, key: Key)
    ensures forall k :: k in Without(keys, key) <==> k in keys && k != key
    ensures NoDup(keys) ==> NoDup(Without(keys, key))
    ensures |Without(keys, key)| <= |keys|
  {
    if keys == [] {
    } else {
      WithoutContents(keys[1..], key);
      NoDupCons(keys[0], keys[1..]);
      NoDupCons(keys[0], Without(keys[1..], key));
      assert keys == [keys[0]] + keys[1..];
    }
  }

  lemma {:induction false} UniqueContents(keys: seq<Key>)
    ensures NoDup(Unique(keys)) && forall k :: k in Unique(keys) <==> k in keys
    ensures NoDup(keys) ==> Unique(keys) == keys
  {
    if keys == [] {
    } else {
      var n := |keys| - 1;
      UniqueContents(keys[..n]);
      assert keys == keys[..n] + [keys[n]];
      NoDupSnoc(keys[..n], keys[n]);
      NoDupSnoc(Unique(keys[..n]), keys[n]);
    }
  }

  // ----- the invariant

  lemma SpliceSwaps(order: seq<Key>, i: nat, j: nat)
    requires i < |order| && j < |order| && (j == i + 1 || i == j + 1)
    ensures Splice(order, i, j) == order[i := order[j]][j := order[i]]
  {
  }

  lemma SwapKeeps<T>(s: seq<T>, i: nat, j: nat)
    requires i < |s| && j < |s|
    ensures var t := s[i := s[j]][j := s[i]];
            (NoDup(s) ==> NoDup(t)) && (forall x :: x in t <==> x in s)
  {
    var t := s[i := s[j]][j := s[i]];
    forall x | x in s ensures x in t {
      var k :| 0 <= k < |s| && s[k] == x;
      assert t[if k == i then j else if k == j then i else k] == x;
    }
  }

  lemma MoveKeeps(order: seq<Key>, key: Key, direction: Direction)
    ensures |Move(order, key, direction)| == |order|
    ensures NoDup(order) ==> NoDup(Move(order, key, direction))
    ensures forall k :: k in Move(order, key, direction) <==> k in order
  {
    var i := IndexOf(order, key);
    var j := if direction == Up then i - 1 else i + 1;
    if i >= 0 && 0 <= j < |order| {
      SpliceSwaps(order, i, j);
      SwapKeeps(order, i, j);
    }
  }

  lemma DoKeepsValid(s: State, c: Command)
    requires Valid(s)
    ensures Valid(Do(s, c))
  {
    match c
    case MoveColumn(key, direction) => MoveKeeps(s.order, key, direction);
    case ToggleColumn(key) =>
      WithoutContents(s.hidden, key);
      NoDupSnoc(s.hidden, key);
  }

  /** A toggle shows or hides one column, unless it is the last one visible. */
  lemma ToggleShows(s: State, key: Key)
    ensures var t := Toggle(s, key);
            && (key in s.hidden ==> key !in t.hidden)
            && (key !in s.hidden ==> (key in t.hidden <==> |s.order| - |s.hidden| > 1))
            && (forall k :: k != key ==> (k in t.hidden <==> k in s.hidden))
            && (Valid(s) ==> Valid(t))
  {
    WithoutContents(s.hidden, key);
    if Valid(s) {
      DoKeepsValid(s, ToggleColumn(key));
    }
  }

  lemma {:induction false} RunKeepsValid(s: State, cs: seq<Command>)
    requires Valid(s)
    ensures Valid(Run(s, cs))
    decreases |cs|
  {
    if cs == [] {
    } else {
      DoKeepsValid(s, cs[0]);
      RunKeepsValid(Do(s, cs[0]), cs[1..]);
    }
  }

  lemma {:induction false} MinusCount(keys: seq<Key>, out: seq<Key>)
    requires NoDup(keys) && NoDup(out) && forall k :: k in out ==> k in keys
    ensures |Minus(keys, out)| == |keys| - |out|
  {
    if keys == [] {
      if out != [] {
        HasElement(out);
      }
    } else {
      var k := keys[0];
      NoDupCons(k, keys[1..]);
      assert keys == [k] + keys[1..];
      if k in out {
        var less := Without(out, k);
        WithoutContents(out, k);
        WithoutCount(out, k);
        MinusSame(keys[1..], out, less);
        MinusCount(keys[1..], less);
      } else {
        MinusCount(keys[1..], out);
      }
    }
  }

  lemma {:induction false} WithoutCount(keys: seq<Key>, key: Key)
    requires NoDup(keys)
    ensures |Without(keys, key)| == |keys| - (if key in keys then 1 else 0)
  {
    if keys == [] {
    } else {
      NoDupCons(keys[0], keys[1..]);
      assert keys == [keys[0]] + keys[1..];
      WithoutCount(keys[1..], key);
    }
  }

  lemma {:induction false} MinusSame(keys: seq<Key>, out: seq<Key>, other: seq<Key>)
    requires forall k :: k in keys ==> (k in out <==> k in other)
    ensures Minus(keys, out) == Minus(keys, other)
  {
    if keys == [] {
    } else {
      MinusSame(keys[1..], out, other);
    }
  }

  lemma MinusNothing(keys: seq<Key>, out: seq<Key>)
    requires forall k :: k in keys ==> k in out
    ensures Minus(keys, out) == []
  {
    MinusContents(keys, out);
    if Minus(keys, out) != [] {
      HasElement(Minus(keys, out));
    }
  }

  lemma PermutationLength(order: seq<Key>)
    requires Permutation(order)
    ensures |order| == |DEFAULT_ORDER|
  {
    hide DEFAULT_ORDER;
    DefaultIsPermutation();
    MinusCount(DEFAULT_ORDER, order);
    MinusNothing(DEFAULT_ORDER, order);
  }

  /** The count the toggle compares with one is the number of columns shown. */
  lemma VisibleCount(s: State)
    requires Valid(s)
    ensures |Visible(s)| == |s.order| - |s.hidden| >= 1
  {
    MinusCount(s.order, s.hidden);
  }

  // ----- stored settings

  lemma NoDupConcat<T>(a: seq<T>, b: seq<T>)
    ensures NoDup(a + b) <==> NoDup(a) && NoDup(b) && forall x :: x in a ==> x !in b
  {
    var t := a + b;
    if NoDup(t) {
      forall i, j | 0 <= i < |a| && 0 <= j < |b| ensures a[i] != b[j] {
        assert t[i] == a[i] && t[|a| + j] == b[j];
      }
      forall i, j | 0 <= i < j < |b| ensures b[i] != b[j] {
        assert t[|a| + i] == b[i] && t[|a| + j] == b[j];
      }
      forall i, j | 0 <= i < j < |a| ensures a[i] != a[j] {
        assert t[i] == a[i] && t[j] == a[j];
      }
    }
    if NoDup(a) && NoDup(b) && forall x :: x in a ==> x !in b {
      forall i, j | 0 <= i < j < |t| ensures t[i] != t[j] {
        if i < |a| <= j {
          assert t[i] in a && t[j] in b;
        }
      }
    }
  }

  /** Loading settings leaves a valid state if and only if the known columns stored as the
      order are stored without repetition; unknown and missing ones do no harm. */
  lemma HydrateValid(s: State, order: seq<Stored>, hidden: seq<Stored>)
    requires Valid(s)
    ensures Valid(Hydrate(s, order, hidden)) <==> NoDup(KnownKeys(order))
  {
    hide DEFAULT_ORDER;
    var known := KnownKeys(order);
    var rest := Minus(DEFAULT_ORDER, known);
    DefaultIsPermutation();
    PermutationLength(s.order);
    MinusContents(DEFAULT_ORDER, known);
    UniqueContents(KnownKeys(hidden));
    NoDupConcat(known, rest);
    if |known| > 0 && NoDup(known) {
      PermutationLength(known + rest);
    }
  }

  /** `x` occurs in `s`, and before any `y`. */
  predicate Precedes<T(==)>(s: seq<T>, x: T, y: T) {
    s != [] && s[0] != y && (s[0] == x || Precedes(s[1..], x, y))
  }

  lemma {:induction false} PrecedesMeaning<T>(s: seq<T>, x: T, y: T)
    ensures Precedes(s, x, y) <==> exists i :: 0 <= i < |s| && s[i] == x && y !in s[..i + 1]
  {
    if s == [] {
    } else {
      PrecedesMeaning(s[1..], x, y);
      assert s[..1] == [s[0]];
      forall i | 1 <= i < |s| ensures s[i] == s[1..][i - 1] && s[..i + 1] == [s[0]] + s[1..][..i] {
      }
      if Precedes(s, x, y) && s[0] != x {
        var i :| 0 <= i < |s| - 1 && s[1..][i] == x && y !in s[1..][..i + 1];
        assert s[i + 1] == x && y !in s[..i + 2];
      }
    }
  }

  lemma PrecedesFirst<T>(first: T, s: seq<T>, x: T, y: T)
    ensures Precedes([first] + s, x, y) <==> first != y && (first == x || Precedes(s, x, y))
  {
    assert ([first] + s)[1..] == s;
  }

  lemma {:induction false} PrecedesConcat<T>(s: seq<T>, t: seq<T>, x: T, y: T)
    ensures Precedes(s + t, x, y) <==> Precedes(s, x, y) || (x !in s && y !in s && Precedes(t, x, y))
  {
    if s == [] {
      assert s + t == t;
    } else {
      hide Precedes;
      PrecedesConcat(s[1..], t, x, y);
      PrecedesFirst(s[0], s[1..], x, y);
      PrecedesFirst(s[0], s[1..] + t, x, y);
      assert s == [s[0]] + s[1..] && s + t == [s[0]] + (s[1..] + t);
    }
  }

  lemma {:induction false} PrecedesMinus(keys: seq<Key>, out: seq<Key>, x: Key, y: Key)
    requires x !in out && y !in out
    ensures Precedes(Minus(keys, out), x, y) <==> Precedes(keys, x, y)
  {
    if keys == [] {
    } else {
      hide Precedes;
      PrecedesMinus(keys[1..], out, x, y);
      PrecedesFirst(keys[0], keys[1..], x, y);
      PrecedesFirst(keys[0], Minus(keys[1..], out), x, y);
      assert keys == [keys[0]] + keys[1..] && [] + Minus(keys[1..], out) == Minus(keys[1..], out);
    }
  }

  lemma {:induction false} PrecedesKnown(stored: seq<Stored>, x: Key, y: Key)
    ensures Precedes(KnownKeys(stored), x, y) <==> Precedes(stored, Known(x), Known(y))
    ensures x in KnownKeys(stored) <==> Known(x) in stored
    ensures y in KnownKeys(stored) <==> Known(y) in stored
  {
    if stored == [] {
    } else {
      hide Precedes;
      var rest := KnownKeys(stored[1..]);
      PrecedesKnown(stored[1..], x, y);
      PrecedesFirst(stored[0], stored[1..], Known(x), Known(y));
      assert stored == [stored[0]] + stored[1..] && [] + rest == rest;
      if stored[0].Known? {
        PrecedesFirst(stored[0].key, rest, x, y);
      }
    }
  }

  lemma {:induction false} SomeIsFirst<T>(s: seq<T>, x: T, y: T)
    requires x != y && x in s && y !in s
    ensures Precedes(s, x, y)
  {
    if s[0] == x {
    } else {
      assert s == [s[0]] + s[1..];
      SomeIsFirst(s[1..], x, y);
    }
  }

  lemma {:induction false} KnownCount(stored: seq<Stored>, key: Key)
    ensures multiset(KnownKeys(stored))[key] == multiset(stored)[Known(key)]
  {
    if stored == [] {
    } else {
      KnownCount(stored[1..], key);
      CountFirst(stored, Known(key));
      if stored[0].Known? {
        CountFirst(KnownKeys(stored), key);
      }
    }
  }

  lemma CountFirst<T>(s: seq<T>, x: T)
    requires s != []
    ensures multiset(s)[x] == multiset(s[1..])[x] + if s[0] == x then 1 else 0
  {
    assert s == [s[0]] + s[1..];
  }

  lemma {:induction false} CountOnce<T>(s: seq<T>, x: T)
    requires NoDup(s)
    ensures multiset(s)[x] == if x in s then 1 else 0
  {
    if s == [] {
    } else {
      assert s == [s[0]] + s[1..];
      NoDupCons(s[0], s[1..]);
      CountOnce(s[1..], x);
      CountFirst(s, x);
    }
  }

  /** Without a known column stored the order stays. Otherwise every column has as many places as
      it was stored, or one; and of any two columns that one comes first which was stored first, or
      stored at all, while two that were not stored keep their default order. */
  lemma HydrateOrder(s: State, order: seq<Stored>, hidden: seq<Stored>, a: Key, b: Key)
    ensures var h := Hydrate(s, order, hidden);
            if forall k :: Known(k) !in order then h.order == s.order
            else
              && multiset(h.order)[a] == (if Known(a) in order then multiset(order)[Known(a)] else 1)
              && (Known(a) in order && Known(b) !in order ==> Precedes(h.order, a, b))
              && (Precedes(h.order, a, b) <==>
                  if Known(a) !in order && Known(b) !in order then Precedes(DEFAULT_ORDER, a, b)
                  else Precedes(order, Known(a), Known(b)))
  {
    hide DEFAULT_ORDER, Precedes;
    var known := KnownKeys(order);
    if k :| Known(k) in order {
      PrecedesKnown(order, k, k);
      DefaultIsPermutation();
      MergedOrder(order, a, b);
    } else if known != [] {
      PrecedesKnown(order, known[0], known[0]);
    }
  }

  lemma MergedOrder(order: seq<Stored>, a: Key, b: Key)
    requires Permutation(DEFAULT_ORDER)
    ensures var merged := KnownKeys(order) + Minus(DEFAULT_ORDER, KnownKeys(order));
            && multiset(merged)[a] == (if Known(a) in order then multiset(order)[Known(a)] else 1)
            && (Known(a) in order && Known(b) !in order ==> Precedes(merged, a, b))
            && (Precedes(merged, a, b) <==>
                if Known(a) !in order && Known(b) !in order then Precedes(DEFAULT_ORDER, a, b)
                else Precedes(order, Known(a), Known(b)))
  {
    hide DEFAULT_ORDER, Precedes;
    var known := KnownKeys(order);
    PrecedesKnown(order, a, b);
    KnownCount(order, a);
    MinusContents(DEFAULT_ORDER, known);
    CountOnce(Minus(DEFAULT_ORDER, known), a);
    PrecedesConcat(known, Minus(DEFAULT_ORDER, known), a, b);
    if a in known && b !in known {
      SomeIsFirst(known, a, b);
    } else if a !in known && b !in known {
      PrecedesMeaning(known, a, b);
      PrecedesMinus(DEFAULT_ORDER, known, a, b);
    }
  }

  lemma {:induction false} KnownNames(keys: seq<Key>)
    ensures KnownKeys(Names(keys)) == keys
  {
    if keys == [] {
    } else {
      KnownNames(keys[1..]);
      assert Names(keys)[1..] == Names(keys[1..]);
    }
  }

  /** What was saved is loaded again, whatever was set before. */
  lemma SaveLoad(s: State, before: State)
    requires Valid(s)
    ensures Hydrate(before, Names(s.order), Names(s.hidden)) == s
  {
    hide DEFAULT_ORDER;
    KnownNames(s.order);
    KnownNames(s.hidden);
    UniqueContents(s.hidden);
    PermutationLength(s.order);
    MinusNothing(DEFAULT_ORDER, s.order);
    assert s.order + [] == s.order;
  }

  lemma {:induction false} UniqueLength(keys: seq<Key>)
    ensures |Unique(keys)| <= |keys|
    ensures !NoDup(keys) ==> |Unique(keys)| < |keys|
  {
    if keys == [] {
    } else {
      var n := |keys| - 1;
      UniqueLength(keys[..n]);
      UniqueContents(keys[..n]);
      assert keys == keys[..n] + [keys[n]];
      NoDupSnoc(keys[..n], keys[n]);
    }
  }

  /** An order that holds every column, some twice, is longer than the list of columns. */
  lemma RepeatedIsLonger(order: seq<Key>)
    requires !NoDup(order) && forall k: Key :: k in order
    ensures |order| > |DEFAULT_ORDER|
  {
    hide DEFAULT_ORDER;
    UniqueLength(order);
    UniqueContents(order);
    PermutationLength(Unique(order));
  }

  lemma NoDupLength(keys: seq<Key>)
    requires NoDup(keys)
    ensures |keys| <= |DEFAULT_ORDER|
  {
    hide DEFAULT_ORDER;
    DefaultIsPermutation();
    MinusCount(DEFAULT_ORDER, keys);
  }

  /** If the order is too long, toggling can hide any columns. */
  lemma {:induction false} HideAny(s: State, keys: seq<Key>)
    requires |s.order| > |DEFAULT_ORDER| && NoDup(s.hidden)
    requires NoDup(keys) && forall k :: k in keys ==> k !in s.hidden
    ensures var t := Run(s, ToggleCommands(keys));
            t.order == s.order && forall k :: k in s.hidden || k in keys ==> k in t.hidden
    decreases |keys|
  {
    hide DEFAULT_ORDER;
    if keys == [] {
    } else {
      assert ToggleCommands(keys)[1..] == ToggleCommands(keys[1..]);
      assert keys == [keys[0]] + keys[1..];
      NoDupCons(keys[0], keys[1..]);
      NoDupSnoc(s.hidden, keys[0]);
      NoDupLength(s.hidden + [keys[0]]);
      HideAny(Toggle(s, keys[0]), keys[1..]);
    }
  }

  /** How all columns get hidden when the order has a repetition. */
  lemma HideEverything(s: State) returns (cs: seq<Command>)
    requires !NoDup(s.order) && NoDup(s.hidden) && forall k: Key :: k in s.order
    ensures Visible(Run(s, cs)) == []
  {
    hide DEFAULT_ORDER;
    DefaultIsPermutation();
    RepeatedIsLonger(s.order);
    var keys := Minus(DEFAULT_ORDER, s.hidden);
    MinusContents(DEFAULT_ORDER, s.hidden);
    HideAny(s, keys);
    cs := ToggleCommands(keys);
    var t := Run(s, cs);
    MinusNothing(t.order, t.hidden);
  }

  lemma HydrateShape(s: State, order: seq<Stored>, hidden: seq<Stored>)
    requires Valid(s)
    ensures var h := Hydrate(s, order, hidden);
            NoDup(h.hidden) && (forall k: Key :: k in h.order) && (NoDup(h.order) <==> NoDup(KnownKeys(order)))
  {
    hide DEFAULT_ORDER;
    var known := KnownKeys(order);
    DefaultIsPermutation();
    MinusContents(DEFAULT_ORDER, known);
    UniqueContents(KnownKeys(hidden));
    NoDupConcat(known, Minus(DEFAULT_ORDER, known));
  }

  /** After settings were loaded, some moves and toggles hide every column if and only if a known
      column was stored more than once in the order. */
  lemma AllCanBeHidden(s: State, order: seq<Stored>, hidden: seq<Stored>)
    requires Valid(s)
    ensures (exists cs :: Visible(Run(Hydrate(s, order, hidden), cs)) == []) <==> !NoDup(KnownKeys(order))
  {
    hide Visible, Hydrate, Run, KnownKeys, Valid;
    var h := Hydrate(s, order, hidden);
    if NoDup(KnownKeys(order)) {
      HydrateValid(s, order, hidden);
      forall cs ensures Visible(Run(h, cs)) != [] {
        RunKeepsValid(h, cs);
        VisibleCount(Run(h, cs));
      }
    } else {
      HydrateShape(s, order, hidden);
      var cs := HideEverything(h);
    }
  }

  /** For example: with one column stored twice the last visible one can be hidden at once. */
  lemma StoredTwiceHidesAll()
    ensures var stored := [Known(Code), Known(Code)];
            var s := Hydrate(State(DEFAULT_ORDER, DEFAULT_HIDDEN), stored, Names(DEFAULT_ORDER[1..]));
            Visible(Toggle(s, Code)) == []
  {
    var hidden := DEFAULT_ORDER[1..];
    assert DEFAULT_ORDER == [Code] + hidden && |hidden| == 12;
    hide DEFAULT_ORDER;
    var stored := [Known(Code), Known(Code)];
    assert stored[1..] == [Known(Code)] && [Known(Code)][1..] == [];
    var known := KnownKeys(stored);
    assert known == [Code, Code];
    DefaultIsPermutation();
    NoDupCons(Code, hidden);
    KnownNames(hidden);
    UniqueContents(hidden);
    var s := Hydrate(State(DEFAULT_ORDER, DEFAULT_HIDDEN), stored, Names(hidden));
    assert s.hidden == hidden;
    MinusSame(DEFAULT_ORDER, known, [Code]);
    MinusCount(DEFAULT_ORDER, [Code]);
    assert |s.order| - |s.hidden| > 1;
    var all := hidden + [Code];
    forall k: Key ensures k in all {
      assert k in DEFAULT_ORDER;
    }
    MinusNothing(s.order, all);
  }

  // ----- every layout can be reached

  /** `to` comes out of `from` by moving up, one after the other, keys that are not first. */
  ghost predicate MovesUp(from: seq<Key>, keys: seq<Key>, to: seq<Key>)
    decreases |keys|
  {
    if keys == [] then from == to
    else IndexOf(from, keys[0]) > 0 && MovesUp(Move(from, keys[0], Up), keys[1..], to)
  }

  /** What moves a list can be done behind a first column that stays. */
  lemma {:induction false} MovesBehind(first: Key, from: seq<Key>, keys: seq<Key>, to: seq<Key>)
    requires MovesUp(from, keys, to) && first !in from
    ensures MovesUp([first] + from, keys, [first] + to)
    decreases |keys|
  {
    if keys == [] {
    } else {
      var k := keys[0];
      var i := IndexOf(from, k);
      var all := [first] + from;
      assert all[1..] == from;
      assert IndexOf(all, k) == i + 1;
      SpliceSwaps(from, i, i - 1);
      SpliceSwaps(all, i + 1, i);
      assert Move(all, k, Up) == [first] + Move(from, k, Up);
      MoveKeeps(from, k, Up);
      MovesBehind(first, Move(from, k, Up), keys[1..], to);
    }
  }

  lemma {:induction false} MovesConcat(from: seq<Key>, ks: seq<Key>, mid: seq<Key>, ls: seq<Key>, to: seq<Key>)
    requires MovesUp(from, ks, mid) && MovesUp(mid, ls, to)
    ensures MovesUp(from, ks + ls, to)
    decreases |ks|
  {
    hide Move, IndexOf;
    if ks == [] {
      assert ks + ls == ls;
    } else {
      assert (ks + ls)[1..] == ks[1..] + ls;
      MovesConcat(Move(from, ks[0], Up), ks[1..], mid, ls, to);
    }
  }

  /** A column can be moved up to the first place, and the others keep their order. */
  lemma {:induction false} MoveToFront(from: seq<Key>, i: nat) returns (keys: seq<Key>)
    requires NoDup(from) && i < |from|
    ensures MovesUp(from, keys, [from[i]] + from[..i] + from[i + 1..])
    decreases i
  {
    hide Move, IndexOf;
    var k := from[i];
    if i == 0 {
      keys := [];
      assert [from[0]] + from[..0] + from[1..] == from;
    } else {
      MoveUpShape(from, i);
      MoveKeeps(from, k, Up);
      var next := Move(from, k, Up);
      keys := MoveToFront(next, i - 1);
      FrontIsSame(from, next, i);
      keys := [k] + keys;
    }
  }

  lemma FrontIsSame(from: seq<Key>, next: seq<Key>, i: nat)
    requires 0 < i < |from| && next == from[..i - 1] + [from[i]] + [from[i - 1]] + from[i + 1..]
    ensures [next[i - 1]] + next[..i - 1] + next[i..] == [from[i]] + from[..i] + from[i + 1..]
  {
    assert from[..i] == from[..i - 1] + [from[i - 1]];
    assert next[i..] == [from[i - 1]] + from[i + 1..];
  }

  lemma MoveUpShape(from: seq<Key>, i: nat)
    requires NoDup(from) && 0 < i < |from|
    ensures IndexOf(from, from[i]) == i
    ensures Move(from, from[i], Up) == from[..i - 1] + [from[i]] + [from[i - 1]] + from[i + 1..]
  {
    hide Splice, IndexOf;
    OnlyPlace(from, i);
    SpliceSwaps(from, i, i - 1);
    SwapShape(from, i);
  }

  lemma SwapShape(s: seq<Key>, i: nat)
    requires 0 < i < |s|
    ensures s[i := s[i - 1]][i - 1 := s[i]] == s[..i - 1] + [s[i]] + [s[i - 1]] + s[i + 1..]
  {
  }

  /** Moving columns up is enough to turn any order into any other. */
  lemma {:induction false} EveryOrder(from: seq<Key>, to: seq<Key>) returns (keys: seq<Key>)
    requires NoDup(from) && NoDup(to) && forall k :: k in from <==> k in to
    ensures MovesUp(from, keys, to)
    decreases |to|
  {
    if to == [] {
      if from != [] {
        HasElement(from);
      }
      assert MovesUp(from, [], to);
      return [];
    }
    hide MovesUp;
    var first, rest, more;
    keys, rest := PickFirst(from, to);
    first := to[0];
    more := EveryOrder(rest, to[1..]);
    MovesBehind(first, rest, more, to[1..]);
    assert to == [first] + to[1..];
    MovesConcat(from, keys, [first] + rest, more, to);
    keys := keys + more;
  }

  /** The first column of the goal moved to the front; what is left is a smaller task. */
  lemma PickFirst(from: seq<Key>, to: seq<Key>) returns (keys: seq<Key>, rest: seq<Key>)
    requires NoDup(from) && NoDup(to) && to != [] && forall k :: k in from <==> k in to
    ensures MovesUp(from, keys, [to[0]] + rest)
    ensures NoDup(rest) && NoDup(to[1..]) && to[0] !in rest
    ensures forall k :: k in rest <==> k in to[1..]
  {
    hide MovesUp, IndexOf;
    assert to[0] in from;
    var i := IndexOf(from, to[0]);
    keys := MoveToFront(from, i);
    rest := from[..i] + from[i + 1..];
    assert [from[i]] + from[..i] + from[i + 1..] == [to[0]] + rest;
    RestOf(from, i);
    RestOf(to, 0);
    assert to[..0] + to[1..] == to[1..];
  }

  lemma RestOf(s: seq<Key>, i: nat)
    requires NoDup(s) && i < |s|
    ensures var rest := s[..i] + s[i + 1..];
            NoDup(rest) && s[i] !in rest && forall k :: k in rest <==> k in s && k != s[i]
  {
    var rest := s[..i] + s[i + 1..];
    forall k | k in s && k != s[i] ensures k in rest {
      var j :| 0 <= j < |s| && s[j] == k;
      assert rest[if j < i then j else j - 1] == k;
    }
  }

  function UpCommands(keys: seq<Key>): (cs: seq<Command>)
    ensures |cs| == |keys| && forall i :: 0 <= i < |keys| ==> cs[i] == MoveColumn(keys[i], Up)
  {
    seq(|keys|, i requires 0 <= i < |keys| => MoveColumn(keys[i], Up))
  }

  function ToggleCommands(keys: seq<Key>): (cs: seq<Command>)
    ensures |cs| == |keys| && forall i :: 0 <= i < |keys| ==> cs[i] == ToggleColumn(keys[i])
  {
    seq(|keys|, i requires 0 <= i < |keys| => ToggleColumn(keys[i]))
  }

  lemma {:induction false} RunMoves(s: State, keys: seq<Key>, to: seq<Key>)
    requires MovesUp(s.order, keys, to)
    ensures Run(s, UpCommands(keys)) == s.(order := to)
    decreases |keys|
  {
    if keys == [] {
    } else {
      assert UpCommands(keys)[1..] == UpCommands(keys[1..]);
      RunMoves(s.(order := Move(s.order, keys[0], Up)), keys[1..], to);
    }
  }

  lemma {:induction false} RunConcat(s: State, a: seq<Command>, b: seq<Command>)
    ensures Run(s, a + b) == Run(Run(s, a), b)
    decreases |a|
  {
    if a == [] {
      assert a + b == b;
    } else {
      assert (a + b)[1..] == a[1..] + b;
      RunConcat(Do(s, a[0]), a[1..], b);
    }
  }

  /** Toggling hidden columns shows them. */
  lemma {:induction false} ShowAll(s: State, keys: seq<Key>)
    requires Valid(s) && NoDup(keys) && forall k :: k in keys ==> k in s.hidden
    ensures var t := Run(s, ToggleCommands(keys));
            && Valid(t) && t.order == s.order
            && forall k :: k in t.hidden <==> k in s.hidden && k !in keys
    decreases |keys|
  {
    if keys == [] {
    } else {
      assert ToggleCommands(keys)[1..] == ToggleCommands(keys[1..]);
      assert keys == [keys[0]] + keys[1..];
      NoDupCons(keys[0], keys[1..]);
      DoKeepsValid(s, ToggleColumn(keys[0]));
      WithoutContents(s.hidden, keys[0]);
      ShowAll(Toggle(s, keys[0]), keys[1..]);
    }
  }

  /** As long as some column is to stay visible, toggling hides all the others. */
  lemma {:induction false} HideAll(s: State, keys: seq<Key>, stays: Key)
    requires Valid(s) && NoDup(keys) && stays !in keys && stays !in s.hidden
    requires forall k :: k in keys ==> k !in s.hidden
    ensures var t := Run(s, ToggleCommands(keys));
            && Valid(t) && t.order == s.order
            && forall k :: k in t.hidden <==> k in s.hidden || k in keys
    decreases |keys|
  {
    if keys == [] {
    } else {
      assert ToggleCommands(keys)[1..] == ToggleCommands(keys[1..]);
      assert keys == [keys[0]] + keys[1..];
      NoDupCons(keys[0], keys[1..]);
      DoKeepsValid(s, ToggleColumn(keys[0]));
      TwoVisible(s, keys[0], stays);
      HideAll(Toggle(s, keys[0]), keys[1..], stays);
    }
  }

  lemma TwoVisible(s: State, a: Key, b: Key)
    requires Valid(s) && a != b && a !in s.hidden && b !in s.hidden
    ensures |s.order| - |s.hidden| >= 2
  {
    VisibleCount(s);
    MinusContents(s.order, s.hidden);
    var v := Visible(s);
    assert a in v && b in v;
    var i :| 0 <= i < |v| && v[i] == a;
    var j :| 0 <= j < |v| && v[j] == b;
    assert i != j;
  }

  /** From every valid layout every other can be reached with the two handlers. */
  lemma EveryLayout(s: State, goal: State) returns (cs: seq<Command>)
    requires Valid(s) && Valid(goal)
    ensures var t := Run(s, cs);
            Valid(t) && t.order == goal.order && Visible(t) == Visible(goal)
  {
    PermutationLength(s.order);
    PermutationLength(goal.order);
    var ups := EveryOrder(s.order, goal.order);
    RunMoves(s, ups, goal.order);
    var s1 := s.(order := goal.order);

    var show := Minus(s1.hidden, goal.hidden);
    MinusContents(s1.hidden, goal.hidden);
    ShowAll(s1, show);
    var s2 := Run(s1, ToggleCommands(show));

    var conceal := Minus(goal.hidden, s2.hidden);
    MinusContents(goal.hidden, s2.hidden);
    VisibleCount(goal);
    MinusContents(goal.order, goal.hidden);
    var stays := Visible(goal)[0];
    assert stays in Visible(goal);
    HideAll(s2, conceal, stays);
    var t := Run(s2, ToggleCommands(conceal));
    MinusSame(t.order, t.hidden, goal.hidden);

    cs := UpCommands(ups) + (ToggleCommands(show) + ToggleCommands(conceal));
    RunConcat(s, UpCommands(ups), ToggleCommands(show) + ToggleCommands(conceal));
    RunConcat(s1, ToggleCommands(show), ToggleCommands(conceal));
  }

  /** Moving a column up and down again changes nothing, unless it was first. */
  lemma UpDown(order: seq<Key>, key: Key)
    requires NoDup(order) && IndexOf(order, key) > 0
    ensures Move(Move(order, key, Up), key, Down) == order
  {
    hide Splice, IndexOf;
    var i := IndexOf(order, key);
    var up := Move(order, key, Up);
    SpliceSwaps(order, i, i - 1);
    assert up == order[i := order[i - 1]][i - 1 := key];
    MoveKeeps(order, key, Up);
    OnlyPlace(up, i - 1);
    SpliceSwaps(up, i - 1, i);
  }

  lemma OnlyPlace(order: seq<Key>, i: nat)
    requires NoDup(order) && i < |order|
    ensures IndexOf(order, order[i]) == i
  {
    hide IndexOf;
    var k := IndexOf(order, order[i]);
    assert order[i] in order;
    assert order[k] == order[i];
  }

  /** Loading hides exactly the columns stored as hidden, each once, whatever else is stored; only
      if that would hide all of them the hidden columns stay as they were. */
  lemma HydrateHidden(s: State, order: seq<Stored>, hidden: seq<Stored>)
    ensures var h := Hydrate(s, order, hidden);
            if forall k: Key :: Known(k) in hidden then h.hidden == s.hidden
            else NoDup(h.hidden) && forall k: Key :: k in h.hidden <==> Known(k) in hidden
  {
    hide DEFAULT_ORDER, NoDup, Unique, KnownKeys;
    var keys := KnownKeys(hidden);
    var unique := Unique(keys);
    UniqueContents(keys);
    forall k: Key ensures k in unique <==> Known(k) in hidden {
      PrecedesKnown(hidden, k, k);
    }
    FullOrNot(unique);
  }

  lemma FullOrNot(keys: seq<Key>)
    requires NoDup(keys)
    ensures |keys| >= |DEFAULT_ORDER| <==> forall k: Key :: k in keys
  {
    hide DEFAULT_ORDER;
    DefaultIsPermutation();
    MinusCount(DEFAULT_ORDER, keys);
    MinusContents(DEFAULT_ORDER, keys);
    if forall k: Key :: k in keys {
      MinusNothing(DEFAULT_ORDER, keys);
    }
    if |keys| >= |DEFAULT_ORDER| {
      var missing := Minus(DEFAULT_ORDER, keys);
      assert missing == [];
      forall k: Key ensures k in keys {
        assert k !in missing;
      }
    }
  }

  lemma {:induction false} MinusConcat(a: seq<Key>, b: seq<Key>, out: seq<Key>)
    ensures Minus(a + b, out) == Minus(a, out) + Minus(b, out)
  {
    if a == [] {
      assert a + b == b;
    } else {
      assert (a + b)[0] == a[0] && (a + b)[1..] == a[1..] + b;
      MinusConcat(a[1..], b, out);
    }
  }

  lemma {:induction false} MinusKeeps(keys: seq<Key>, out: seq<Key>)
    requires forall k :: k in keys ==> k !in out
    ensures Minus(keys, out) == keys
  {
    if keys == [] {
    } else {
      assert keys == [keys[0]] + keys[1..];
      MinusKeeps(keys[1..], out);
    }
  }

  /** Seven columns are shown on a first visit, and a valid state has them. */
  lemma DefaultView()
    ensures Visible(State(DEFAULT_ORDER, DEFAULT_HIDDEN))
         == [FullName, Phone, Email, CustomerStage, TotalSpent, Status, UpdatedAt]
    ensures Valid(State(DEFAULT_ORDER, DEFAULT_HIDDEN))
  {
    hide Minus;
    DefaultIsPermutation();
    var head, tail := [Code, FullName, Phone, Email, CustomerStage, Segment, Source, TotalOrders],
                      [TotalSpent, Status, LastContactAt, UpdatedAt, Tags];
    assert DEFAULT_ORDER == head + tail;
    MinusConcat(head, tail, DEFAULT_HIDDEN);
    ViewOf([Code], [FullName, Phone, Email, CustomerStage], [Segment, Source, TotalOrders]);
    assert [Code] + [FullName, Phone, Email, CustomerStage] + [Segment, Source, TotalOrders] == head;
    ViewOf([], [TotalSpent, Status], [LastContactAt]);
    ViewOf([], [UpdatedAt], [Tags]);
    var left, right := [] + [TotalSpent, Status] + [LastContactAt], [] + [UpdatedAt] + [Tags];
    MinusConcat(left, right, DEFAULT_HIDDEN);
    assert left + right == tail;
  }

  lemma ViewOf(before: seq<Key>, shown: seq<Key>, behind: seq<Key>)
    requires forall k :: k in before || k in behind ==> k in DEFAULT_HIDDEN
    requires forall k :: k in shown ==> k !in DEFAULT_HIDDEN
    ensures Minus(before + shown + behind, DEFAULT_HIDDEN) == shown
  {
    hide Minus, DEFAULT_HIDDEN;
    MinusConcat(before + shown, behind, DEFAULT_HIDDEN);
    MinusConcat(before, shown, DEFAULT_HIDDEN);
    MinusNothing(before, DEFAULT_HIDDEN);
    MinusNothing(behind, DEFAULT_HIDDEN);
    MinusKeeps(shown, DEFAULT_HIDDEN);
  }
}
