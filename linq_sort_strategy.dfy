/** The generic sort strategy: `OrderBy` on a primary key, then, when one is
    configured, `ThenBy` on a secondary key. LINQ's ordering is stable, so the
    result is the unique rearrangement of the input that is sorted by the keys and
    keeps equal-keyed items in their input order; it is modelled here as a stable
    insertion sort, and that uniqueness is proved. Keys are strings compared
    ordinally (`Text.LexLe`). */
module LinqSortStrategy {
  import opened Outcomes
  import opened Text

  /** A configured strategy: the primary key selector and the optional secondary one. */
  datatype Strategy<!T> = Strategy(primary: T -> string, secondary: Option<T -> string>)

  /** The constructor: a null primary selector is refused, a null secondary one is allowed. */
  function Create<T(!new)>(primarySortCriteria: Option<T -> string>, secondarySortCriteria: Option<T -> string>)
    : (r: Result<Strategy<T>>)
    ensures r.Err? <==> primarySortCriteria.None?
    ensures r.Err? ==> r.error == ArgumentNull("primarySortCriteria")
    ensures r.Ok? ==> (r.value.primary == primarySortCriteria.value
                       && r.value.secondary == secondarySortCriteria)
  {
    match primarySortCriteria
    case None => Err(ArgumentNull("primarySortCriteria"))
    case Some(p) => Ok(Strategy(p, secondarySortCriteria))
  }

  /** `x` may come before `y`: its primary key is smaller, or the primary keys are
      equal and (when there is one) its secondary key is not larger. */
  predicate KeyLe<T(!new)>(st: Strategy<T>, x: T, y: T) {
    if st.primary(x) != st.primary(y) then LexLe(st.primary(x), st.primary(y))
    else match st.secondary
      case None => true
      case Some(f) => LexLe(f(x), f(y))
  }

  /** `x` and `y` compare equal under both keys. */
  predicate SameKey<T(!new)>(st: Strategy<T>, x: T, y: T) {
    KeyLe(st, x, y) && KeyLe(st, y, x)
  }

  predicate Sorted<T(!new)>(st: Strategy<T>, s: seq<T>) {
    forall i, j | 0 <= i < j < |s| :: KeyLe(st, s[i], s[j])
  }

  /** The items of `s` whose keys equal those of `k`, in the order of `s`. */
  function KeyClass<T(!new)>(st: Strategy<T>, k: T, s: seq<T>): seq<T> {
    if s == [] then [] else Pick(st, k, s[0]) + KeyClass(st, k, s[1..])
  }

  function Pick<T(!new)>(st: Strategy<T>, k: T, x: T): seq<T> {
    if SameKey(st, k, x) then [x] else []
  }

  /** `r` lists every class of equal-keyed items exactly as `s` does: the relative
      order of equal-keyed items is kept. */
  ghost predicate Stable<T(!new)>(st: Strategy<T>, r: seq<T>, s: seq<T>) {
    forall k :: KeyClass(st, k, r) == KeyClass(st, k, s)
  }

  /** `x` goes in front of the first item it may precede. */
  function Insert<T(!new)>(st: Strategy<T>, x: T, s: seq<T>): seq<T> {
    if s == [] || KeyLe(st, x, s[0]) then [x] + s
    else [s[0]] + Insert(st, x, s[1..])
  }

  function StableSort<T(!new)>(st: Strategy<T>, s: seq<T>): seq<T> {
    if s == [] then [] else Insert(st, s[0], StableSort(st, s[1..]))
  }

  /** `Sort`: a null collection is refused; otherwise the items come back sorted
      by the keys, as a permutation of the input, with equal-keyed items in input order. */
  function Sort<T(!new)>(st: Strategy<T>, items: Option<seq<T>>): (r: Result<seq<T>>)
    ensures r.Err? <==> items.None?
    ensures r.Err? ==> r.error == ArgumentNull("items")
    ensures r.Ok? ==> (Sorted(st, r.value)
                       && multiset(r.value) == multiset(items.value)
                       && Stable(st, r.value, items.value))
    ensures r.Ok? && |items.value| <= 1 ==> r.value == items.value
  {
    match items
    case None => Err(ArgumentNull("items"))
    case Some(s) =>
      StableSortSorted(st, s);
      StableSortPermutation(st, s);
      StableSortStable(st, s);
      Ok(StableSort(st, s))
  }

  // ---------------------------------------------------------------------------
  // The key order is a total preorder

  lemma KeyLeReflexive<T(!new)>(st: Strategy<T>, x: T)
    ensures KeyLe(st, x, x)
  {
    if st.secondary.Some? {
      LexLeReflexive(st.secondary.value(x));
    }
  }

  lemma KeyLeTotal<T(!new)>(st: Strategy<T>, x: T, y: T)
    ensures KeyLe(st, x, y) || KeyLe(st, y, x)
  {
    if st.primary(x) != st.primary(y) {
      LexLeTotal(st.primary(x), st.primary(y));
    } else if st.secondary.Some? {
      LexLeTotal(st.secondary.value(x), st.secondary.value(y));
    }
  }

  lemma KeyLeTransitive<T(!new)>(st: Strategy<T>, x: T, y: T, z: T)
    requires KeyLe(st, x, y) && KeyLe(st, y, z)
    ensures KeyLe(st, x, z)
  {
    var px, py, pz := st.primary(x), st.primary(y), st.primary(z);
    if px == py && py == pz {
      if st.secondary.Some? {
        var f := st.secondary.value;
        LexLeTransitive(f(x), f(y), f(z));
      }
    } else if px == pz {
      // px <= py <= px with one of them strict is impossible
      if px == py {
        assert false;
      } else if py == pz {
        assert false;
      } else {
        LexLeAntisymmetric(px, py);
      }
    } else if px == py {
      assert LexLe(py, pz);
    } else if py == pz {
      assert LexLe(px, py);
    } else {
      LexLeTransitive(px, py, pz);
    }
  }

  /** Equal keys mean equal primary keys and, when configured, equal secondary keys. */
  lemma SameKeyIff<T(!new)>(st: Strategy<T>, x: T, y: T)
    ensures SameKey(st, x, y) <==>
            st.primary(x) == st.primary(y)
            && (st.secondary.Some? ==> st.secondary.value(x) == st.secondary.value(y))
  {
    if st.primary(x) != st.primary(y) {
      if SameKey(st, x, y) {
        LexLeAntisymmetric(st.primary(x), st.primary(y));
      }
    } else if st.secondary.Some? {
      var f := st.secondary.value;
      if SameKey(st, x, y) {
        LexLeAntisymmetric(f(x), f(y));
      } else {
        if f(x) == f(y) {
          LexLeReflexive(f(x));
        }
      }
    }
  }

  /** In a sorted sequence the primary keys never decrease, and where two primary
      keys are equal the secondary keys (when configured) never decrease. */
  lemma SortedByKeys<T(!new)>(st: Strategy<T>, s: seq<T>, i: int, j: int)
    requires Sorted(st, s) && 0 <= i < j < |s|
    ensures LexLe(st.primary(s[i]), st.primary(s[j]))
    ensures st.primary(s[i]) == st.primary(s[j]) && st.secondary.Some?
            ==> LexLe(st.secondary.value(s[i]), st.secondary.value(s[j]))
  {
    assert KeyLe(st, s[i], s[j]);
    if st.primary(s[i]) == st.primary(s[j]) {
      LexLeReflexive(st.primary(s[i]));
    }
  }

  // ---------------------------------------------------------------------------
  // Insertion

  lemma {:induction false} InsertPermutation<T(!new)>(st: Strategy<T>, x: T, s: seq<T>)
    ensures multiset(Insert(st, x, s)) == multiset{x} + multiset(s)
    decreases |s|
  {
    if s == [] || KeyLe(st, x, s[0]) {
    } else {
      InsertPermutation(st, x, s[1..]);
      assert s == [s[0]] + s[1..];
    }
  }

  lemma {:induction false} InsertSorted<T(!new)>(st: Strategy<T>, x: T, s: seq<T>)
    requires Sorted(st, s)
    ensures Sorted(st, Insert(st, x, s))
    decreases |s|
  {
    if s == [] {
    } else if KeyLe(st, x, s[0]) {
      var r := [x] + s;
      forall i, j | 0 <= i < j < |r| ensures KeyLe(st, r[i], r[j]) {
        if i == 0 {
          if j > 1 {
            KeyLeTransitive(st, x, s[0], s[j - 1]);
          }
        } else {
          assert r[i] == s[i - 1] && r[j] == s[j - 1];
        }
      }
    } else {
      var t := Insert(st, x, s[1..]);
      InsertSorted(st, x, s[1..]);
      InsertPermutation(st, x, s[1..]);
      forall m | 0 <= m < |t| ensures KeyLe(st, s[0], t[m]) {
        assert t[m] in multiset(t);
        if t[m] == x {
          KeyLeTotal(st, x, s[0]);
        } else {
          assert t[m] in multiset(s[1..]);
          var n :| 0 <= n < |s[1..]| && s[1..][n] == t[m];
          assert s[n + 1] == t[m];
        }
      }
      var r := [s[0]] + t;
      forall i, j | 0 <= i < j < |r| ensures KeyLe(st, r[i], r[j]) {
        if i == 0 {
          assert r[j] == t[j - 1];
        } else {
          assert r[i] == t[i - 1] && r[j] == t[j - 1];
        }
      }
    }
  }

  /** Inserting `x` adds it to its own key class, in front; no other class changes. */
  lemma {:induction false} InsertKeyClass<T(!new)>(st: Strategy<T>, k: T, x: T, s: seq<T>)
    ensures KeyClass(st, k, Insert(st, x, s)) == Pick(st, k, x) + KeyClass(st, k, s)
    decreases |s|
  {
    if s == [] || KeyLe(st, x, s[0]) {
      var r := [x] + s;
      assert r[0] == x && r[1..] == s;
    } else {
      var t := Insert(st, x, s[1..]);
      var r := [s[0]] + t;
      assert r[0] == s[0] && r[1..] == t;
      InsertKeyClass(st, k, x, s[1..]);
      if SameKey(st, k, x) && SameKey(st, k, s[0]) {
        KeyLeTransitive(st, x, k, s[0]);
        assert false;
      }
      var rest := KeyClass(st, k, s[1..]);
      assert Pick(st, k, s[0]) + (Pick(st, k, x) + rest) == Pick(st, k, x) + (Pick(st, k, s[0]) + rest);
    }
  }

  // ---------------------------------------------------------------------------
  // The sort

  lemma {:induction false} StableSortPermutation<T(!new)>(st: Strategy<T>, s: seq<T>)
    ensures multiset(StableSort(st, s)) == multiset(s)
  {
    if s != [] {
      StableSortPermutation(st, s[1..]);
      InsertPermutation(st, s[0], StableSort(st, s[1..]));
      assert s == [s[0]] + s[1..];
    }
  }

  lemma {:induction false} StableSortSorted<T(!new)>(st: Strategy<T>, s: seq<T>)
    ensures Sorted(st, StableSort(st, s))
  {
    if s != [] {
      StableSortSorted(st, s[1..]);
      InsertSorted(st, s[0], StableSort(st, s[1..]));
    }
  }

  lemma {:induction false} StableSortKeyClass<T(!new)>(st: Strategy<T>, k: T, s: seq<T>)
    ensures KeyClass(st, k, StableSort(st, s)) == KeyClass(st, k, s)
  {
    if s != [] {
      StableSortKeyClass(st, k, s[1..]);
      InsertKeyClass(st, k, s[0], StableSort(st, s[1..]));
    }
  }

  lemma StableSortStable<T(!new)>(st: Strategy<T>, s: seq<T>)
    ensures Stable(st, StableSort(st, s), s)
  {
    forall k {
      StableSortKeyClass(st, k, s);
    }
  }

  // ---------------------------------------------------------------------------
  // Uniqueness: sorted and stable determine the result

  lemma {:induction false} KeyClassMembers<T(!new)>(st: Strategy<T>, k: T, s: seq<T>, y: T)
    requires y in KeyClass(st, k, s)
    ensures y in s
  {
    if s != [] {
      if y != s[0] {
        KeyClassMembers(st, k, s[1..], y);
      }
    }
  }

  lemma KeyClassOfHead<T(!new)>(st: Strategy<T>, s: seq<T>)
    requires s != []
    ensures KeyClass(st, s[0], s) == [s[0]] + KeyClass(st, s[0], s[1..])
  {
    KeyLeReflexive(st, s[0]);
  }

  lemma SortedHeadFirst<T(!new)>(st: Strategy<T>, s: seq<T>, y: T)
    requires Sorted(st, s) && y in s
    ensures KeyLe(st, s[0], y)
  {
    var n :| 0 <= n < |s| && s[n] == y;
    if n == 0 {
      KeyLeReflexive(st, y);
    }
  }

  /** Two sorted sequences that list every key class alike are equal. */
  lemma {:induction false} SortedStableUnique<T(!new)>(st: Strategy<T>, a: seq<T>, b: seq<T>)
    requires Sorted(st, a) && Sorted(st, b) && Stable(st, a, b)
    ensures a == b
    decreases |a| + |b|
  {
    if a == [] && b == [] {
    } else if a == [] {
      KeyClassOfHead(st, b);
      assert false;
    } else if b == [] {
      KeyClassOfHead(st, a);
      assert false;
    } else {
      var x, y := a[0], b[0];
      KeyClassOfHead(st, a);
      KeyClassOfHead(st, b);
      assert KeyClass(st, x, a) == KeyClass(st, x, b);
      assert KeyClass(st, y, a) == KeyClass(st, y, b);
      KeyClassMembers(st, x, b, x);
      SortedHeadFirst(st, b, x);
      KeyClassMembers(st, y, a, y);
      SortedHeadFirst(st, a, y);
      assert SameKey(st, x, y);
      assert KeyClass(st, x, b) == [y] + KeyClass(st, x, b[1..]);
      assert KeyClass(st, x, a)[0] == x && KeyClass(st, x, b)[0] == y;
      forall k ensures KeyClass(st, k, a[1..]) == KeyClass(st, k, b[1..]) {
        assert KeyClass(st, k, a) == KeyClass(st, k, b);
        assert KeyClass(st, k, a) == Pick(st, k, x) + KeyClass(st, k, a[1..]);
        assert KeyClass(st, k, b) == Pick(st, k, x) + KeyClass(st, k, b[1..]);
        var n := |Pick(st, k, x)|;
        assert KeyClass(st, k, a[1..]) == KeyClass(st, k, a)[n..];
        assert KeyClass(st, k, b[1..]) == KeyClass(st, k, b)[n..];
      }
      SortedStableUnique(st, a[1..], b[1..]);
      assert a == [x] + a[1..] && b == [y] + b[1..];
    }
  }

  /** The result of the sort is characterised without reference to how it is
      computed: it is the one sorted sequence that keeps every key class of the input. */
  lemma StableSortCharacterized<T(!new)>(st: Strategy<T>, s: seq<T>, r: seq<T>)
    ensures r == StableSort(st, s) <==> Sorted(st, r) && Stable(st, r, s)
  {
    StableSortSorted(st, s);
    StableSortStable(st, s);
    if Sorted(st, r) && Stable(st, r, s) {
      forall k ensures KeyClass(st, k, r) == KeyClass(st, k, StableSort(st, s)) {
        StableSortKeyClass(st, k, s);
      }
      SortedStableUnique(st, r, StableSort(st, s));
    }
  }

  /** Sorting a sorted sequence leaves it unchanged, so sorting twice is sorting once. */
  lemma SortedUnchanged<T(!new)>(st: Strategy<T>, s: seq<T>)
    requires Sorted(st, s)
    ensures StableSort(st, s) == s
    ensures StableSort(st, StableSort(st, s)) == StableSort(st, s)
  {
    StableSortCharacterized(st, s, s);
  }

  /** Sorting depends only on the multiset of items up to the order of equal-keyed
      items: two inputs with the same key classes sort to the same result. */
  lemma SortIgnoresOrderAcrossClasses<T(!new)>(st: Strategy<T>, s: seq<T>, t: seq<T>)
    requires Stable(st, s, t)
    ensures StableSort(st, s) == StableSort(st, t)
  {
    StableSortSorted(st, s);
    forall k ensures KeyClass(st, k, StableSort(st, s)) == KeyClass(st, k, t) {
      StableSortKeyClass(st, k, s);
    }
    StableSortCharacterized(st, t, StableSort(st, s));
  }
}
