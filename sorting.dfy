/** Sorting the process table by one column: the order Python puts on the
    (cell text, row id) pairs, the sorted list that `list.sort` produces,
    and the Treeview `move` that puts a row at a position. */
module Sorting {
  import opened Text
  import opened Process

  /** Python's `<` on (text, id) pairs: by text first, then by the id
      string. */
  predicate KeyLess(a: Key, b: Key)
  {
    StrLess(a.0, b.0) || (a.0 == b.0 && StrLess(IdText(a.1), IdText(b.1)))
  }

  /** Different items have different id strings. */
  lemma IdTextInjective(x: ItemId, y: ItemId)
    requires x != y
    ensures IdText(x) != IdText(y)
  {
    SerialOfRowId(x.serial);
    SerialOfRowId(y.serial);
  }

  /** `a` may stand before `b` in a list sorted ascending, or descending
      when `reverse` holds. */
  predicate InOrder(a: Key, b: Key, reverse: bool)
  {
    a == b || if reverse then KeyLess(b, a) else KeyLess(a, b)
  }

  lemma KeyLessTotal(a: Key, b: Key)
    ensures a == b || KeyLess(a, b) || KeyLess(b, a)
  {
    if a.0 != b.0 {
      StrLessTotal(a.0, b.0);
    } else if a.1 != b.1 {
      IdTextInjective(a.1, b.1);
      StrLessTotal(IdText(a.1), IdText(b.1));
    }
  }

  lemma KeyLessTransitive(a: Key, b: Key, c: Key)
    requires KeyLess(a, b) && KeyLess(b, c)
    ensures KeyLess(a, c)
  {
    if StrLess(a.0, b.0) && StrLess(b.0, c.0) {
      StrLessTransitive(a.0, b.0, c.0);
    } else if a.0 == b.0 && b.0 == c.0 {
      StrLessTransitive(IdText(a.1), IdText(b.1), IdText(c.1));
    }
  }

  lemma KeyLessAsymmetric(a: Key, b: Key)
    requires KeyLess(a, b)
    ensures !KeyLess(b, a)
  {
    if StrLess(a.0, b.0) {
      StrLessAsymmetric(a.0, b.0);
      if b.0 == a.0 {
        StrLessIrreflexive(a.0);
      }
    } else {
      StrLessAsymmetric(IdText(a.1), IdText(b.1));
    }
  }

  lemma InOrderTotal(a: Key, b: Key, reverse: bool)
    ensures InOrder(a, b, reverse) || InOrder(b, a, reverse)
  {
    KeyLessTotal(a, b);
  }

  lemma InOrderTransitive(a: Key, b: Key, c: Key, reverse: bool)
    requires InOrder(a, b, reverse) && InOrder(b, c, reverse)
    ensures InOrder(a, c, reverse)
  {
    if a != b && b != c {
      if reverse {
        KeyLessTransitive(c, b, a);
      } else {
        KeyLessTransitive(a, b, c);
      }
    }
  }

  lemma InOrderAntisymmetric(a: Key, b: Key, reverse: bool)
    requires InOrder(a, b, reverse) && InOrder(b, a, reverse)
    ensures a == b
  {
    if a != b {
      KeyLessAsymmetric(a, b);
    }
  }

  /** Every pair of keys stands in order, ascending or descending. */
  ghost predicate SortedBy(keys: seq<Key>, reverse: bool)
  {
    forall i, j :: 0 <= i < j < |keys| ==> InOrder(keys[i], keys[j], reverse)
  }

  /** `x` put into a sorted list before the first key it may precede. */
  function Insert(x: Key, keys: seq<Key>, reverse: bool): seq<Key>
  {
    if |keys| == 0 then [x]
    else if InOrder(x, keys[0], reverse) then [x] + keys
    else [keys[0]] + Insert(x, keys[1..], reverse)
  }

  /** `l.sort(reverse=reverse)` on a list of (text, id) pairs. */
  function SortKeys(l: seq<Key>, reverse: bool): seq<Key>
  {
    if |l| == 0 then [] else Insert(l[0], SortKeys(l[1..], reverse), reverse)
  }

  lemma {:induction false} InsertPermutes(x: Key, keys: seq<Key>, reverse: bool)
    ensures multiset(Insert(x, keys, reverse)) == multiset(keys) + multiset{x}
  {
    if keys != [] && !InOrder(x, keys[0], reverse) {
      InsertPermutes(x, keys[1..], reverse);
      assert keys == [keys[0]] + keys[1..];
    }
  }

  lemma {:induction false} InsertSorted(x: Key, keys: seq<Key>, reverse: bool)
    requires SortedBy(keys, reverse)
    ensures SortedBy(Insert(x, keys, reverse), reverse)
  {
    if keys == [] {
    } else if InOrder(x, keys[0], reverse) {
      var r := [x] + keys;
      forall i, j | 0 <= i < j < |r|
        ensures InOrder(r[i], r[j], reverse)
      {
        if i == 0 && j > 1 {
          InOrderTransitive(x, keys[0], keys[j - 1], reverse);
        }
      }
    } else {
      var rest := Insert(x, keys[1..], reverse);
      InsertSorted(x, keys[1..], reverse);
      InsertPermutes(x, keys[1..], reverse);
      InOrderTotal(x, keys[0], reverse);
      var r := [keys[0]] + rest;
      forall i, j | 0 <= i < j < |r|
        ensures InOrder(r[i], r[j], reverse)
      {
        if i == 0 {
          assert r[j] in multiset(rest);
          assert r[j] == x || r[j] in keys[1..];
        }
      }
    }
  }

  /** The sorted list holds the same pairs as the list sorted... */
  lemma {:induction false} SortKeysPermutes(l: seq<Key>, reverse: bool)
    ensures multiset(SortKeys(l, reverse)) == multiset(l)
  {
    if l != [] {
      SortKeysPermutes(l[1..], reverse);
      InsertPermutes(l[0], SortKeys(l[1..], reverse), reverse);
      assert l == [l[0]] + l[1..];
    }
  }

  /** ...and they stand in ascending, or with `reverse` descending, order. */
  lemma {:induction false} SortKeysSorted(l: seq<Key>, reverse: bool)
    ensures SortedBy(SortKeys(l, reverse), reverse)
  {
    if l != [] {
      SortKeysSorted(l[1..], reverse);
      InsertSorted(l[0], SortKeys(l[1..], reverse), reverse);
    }
  }

  /** The first key of a sorted list may precede every key of the list. */
  lemma SortedHeadFirst(a: seq<Key>, x: Key, reverse: bool)
    requires SortedBy(a, reverse) && x in a
    ensures InOrder(a[0], x, reverse)
  {
    var i :| 0 <= i < |a| && a[i] == x;
    if i > 0 {
      assert InOrder(a[0], a[i], reverse);
    }
  }

  /** Only one ordering of a list is sorted, so every correct sorting
      algorithm, Python's included, yields `SortKeys`. */
  lemma {:induction false} SortedUnique(a: seq<Key>, b: seq<Key>, reverse: bool)
    requires SortedBy(a, reverse) && SortedBy(b, reverse)
    requires multiset(a) == multiset(b)
    ensures a == b
    decreases |a|
  {
    assert |a| == |multiset(a)| == |multiset(b)| == |b|;
    if a != [] {
      assert b[0] in multiset(a) && a[0] in multiset(b);
      SortedHeadFirst(a, b[0], reverse);
      SortedHeadFirst(b, a[0], reverse);
      InOrderAntisymmetric(a[0], b[0], reverse);
      assert a == [a[0]] + a[1..] && b == [b[0]] + b[1..];
      assert multiset(a) == multiset(a[1..]) + multiset{a[0]};
      assert multiset(b) == multiset(b[1..]) + multiset{a[0]};
      MultisetCancel(multiset(a[1..]), multiset(b[1..]), a[0]);
      SortedTail(a, reverse);
      SortedTail(b, reverse);
      SortedUnique(a[1..], b[1..], reverse);
    }
  }

  /** The keys after the first of a sorted list are sorted. */
  lemma SortedTail(a: seq<Key>, reverse: bool)
    requires SortedBy(a, reverse) && a != []
    ensures SortedBy(a[1..], reverse)
  {
    forall i, j | 0 <= i < j < |a| - 1
      ensures InOrder(a[1..][i], a[1..][j], reverse)
    {
      assert a[1..][i] == a[i + 1] && a[1..][j] == a[j + 1];
    }
  }

  /** Cells are compared as text, so an ascending sort by PID puts pid 10
      before pid 9, whatever the items. */
  lemma PidSortIsTextual(a: ItemId, b: ItemId, floatText: real -> string)
    ensures var nine, ten := Row(a, ProcessInfo(9, "init", 0.0, 0.1, 1)), Row(b, ProcessInfo(10, "sshd", 0.0, 0.2, 1));
      SortKeys(KeysOf([nine, ten], PID, floatText), false) == [("10", b), ("9", a)]
  {
    var nine, ten := Row(a, ProcessInfo(9, "init", 0.0, 0.1, 1)), Row(b, ProcessInfo(10, "sshd", 0.0, 0.2, 1));
    assert Decimal(9) == "9";
    assert Decimal(10) == "10" by { assert Decimal(1) == "1" && Decimal(0) == "0"; }
    assert StrLess("10", "9");
    var l := KeysOf([nine, ten], PID, floatText);
    assert l == [("9", a), ("10", b)];
    assert l[1..] == [("10", b)];
    assert SortKeys(l[1..], false) == [("10", b)] by {
      assert l[1..][1..] == [];
    }
    assert !InOrder(("9", a), ("10", b), false) by {
      StrLessAsymmetric("10", "9");
    }
    assert Insert(("9", a), [("10", b)], false) == [("10", b)] + Insert(("9", a), [], false);
  }

  /** Position of the row of item `k`, or the length when there is none. */
  function FindId(rows: seq<Row>, k: ItemId): (j: nat)
    ensures j <= |rows|
    ensures j < |rows| ==> rows[j].iid == k
    ensures forall a :: 0 <= a < j ==> rows[a].iid != k
  {
    if |rows| == 0 || rows[0].iid == k then 0 else 1 + FindId(rows[1..], k)
  }

  /** Treeview `move(k, '', index)`: the row with id `k` leaves its place
      and is put at `index` among the others (at the end when `index` is
      past them). */
  function MoveTo(rows: seq<Row>, k: ItemId, index: nat): seq<Row>
    requires FindId(rows, k) < |rows|
  {
    var j := FindId(rows, k);
    var others := rows[..j] + rows[j + 1..];
    var at := if index < |others| then index else |others|;
    others[..at] + [rows[j]] + others[at..]
  }

  /** No row appears twice and no two rows share an id, as in any Tk
      treeview. */
  ghost predicate UniqueRows(rows: seq<Row>)
  {
    && (forall r :: multiset(rows)[r] <= 1)
    && (forall r1, r2 :: r1 in rows && r2 in rows && r1.iid == r2.iid ==> r1 == r2)
  }

  /** Reordering rows keeps them unique. */
  lemma UniqueRowsPermuted(rows: seq<Row>, rows': seq<Row>)
    requires UniqueRows(rows) && multiset(rows') == multiset(rows)
    ensures UniqueRows(rows')
  {
    forall r | r in rows'
      ensures r in rows
    {
      assert r in multiset(rows');
    }
  }

  /** A row whose id no row has yet can be added at the end. */
  lemma UniqueRowsAppend(rows: seq<Row>, r: Row)
    requires UniqueRows(rows)
    requires forall q :: q in rows ==> q.iid != r.iid
    ensures UniqueRows(rows + [r])
  {
    assert multiset(rows + [r]) == multiset(rows) + multiset{r};
    assert r !in multiset(rows);
  }

  /** The ids of rows inserted from a serial onwards lie above it and go no
      further than the last serial used. */
  lemma FreshRowsSerials(infos: seq<ProcessInfo>, serial: nat)
    ensures forall r :: r in FreshRows(infos, serial) ==> serial < r.iid.serial <= serial + |infos|
  {
  }

  /** Rows inserted one after another from a serial onwards carry distinct
      ids. */
  lemma {:induction false} FreshRowsUnique(infos: seq<ProcessInfo>, serial: nat)
    ensures UniqueRows(FreshRows(infos, serial))
  {
    if infos != [] {
      var init, x := infos[..|infos| - 1], infos[|infos| - 1];
      var rows, r := FreshRows(init, serial), Row(ItemId(serial + 1 + |init|), x);
      FreshRowsUnique(init, serial);
      FreshRowsSerials(init, serial);
      UniqueRowsAppend(rows, r);
      assert infos == init + [x];
      FreshRowsAppend(init, x, serial);
    }
  }

  /** A row standing at two positions is counted twice. */
  lemma DuplicateCounted(rows: seq<Row>, a: nat, b: nat)
    requires a < b < |rows| && rows[a] == rows[b]
    ensures multiset(rows)[rows[a]] >= 2
  {
    assert rows == rows[..b] + rows[b..];
    assert rows[a] in rows[..b];
    assert rows[b] in rows[b..];
  }

  lemma KeysOfConcat(a: seq<Row>, b: seq<Row>, col: Column, floatText: real -> string)
    ensures KeysOf(a + b, col, floatText) == KeysOf(a, col, floatText) + KeysOf(b, col, floatText)
  {
  }

  /** Removing one copy of the same element from two equal multisets
      leaves equal multisets. */
  lemma MultisetCancel<T>(a: multiset<T>, b: multiset<T>, x: T)
    requires a + multiset{x} == b + multiset{x}
    ensures a == b
  {
    forall y
      ensures a[y] == b[y]
    {
      assert (a + multiset{x})[y] == (b + multiset{x})[y];
    }
  }

  /** In a treeview, the first row with a given id is the only one. */
  lemma FindUnique(rows: seq<Row>, k: ItemId, jj: nat)
    requires UniqueRows(rows)
    requires jj < |rows| && rows[jj].iid == k
    ensures FindId(rows, k) == jj
  {
    var j := FindId(rows, k);
    if j < jj {
      DuplicateCounted(rows, j, jj);
      assert false;
    }
  }

  /** Some row from `index` on carries the key `l[index]` when the keys
      from `index` on are those of the rows from `index` on. */
  lemma LocateNext(rows: seq<Row>, l: seq<Key>, index: nat, col: Column, floatText: real -> string)
    returns (j: nat)
    requires index < |l| == |rows|
    requires multiset(l[index..]) == multiset(KeysOf(rows[index..], col, floatText))
    ensures index <= j < |rows| && KeyOf(rows[j], col, floatText) == l[index]
  {
    var tail := KeysOf(rows[index..], col, floatText);
    assert l[index..][0] == l[index];
    assert l[index] in multiset(l[index..]);
    assert l[index] in tail;
    var p :| 0 <= p < |tail| && tail[p] == l[index];
    j := index + p;
  }

  /** Taking the row at `j` out and putting it at `index` only reorders. */
  lemma MovedPermutes(rows: seq<Row>, index: nat, j: nat)
    requires index <= j < |rows|
    ensures multiset(rows[..index] + [rows[j]] + rows[index..j] + rows[j + 1..]) == multiset(rows)
  {
    assert rows == rows[..index] + rows[index..j] + [rows[j]] + rows[j + 1..];
  }

  /** The keys from `index` on, split around the row at `j`. */
  lemma KeysAround(rows: seq<Row>, index: nat, j: nat, col: Column, floatText: real -> string)
    requires index <= j < |rows|
    ensures KeysOf(rows[index..], col, floatText) ==
      KeysOf(rows[index..j], col, floatText) + [KeyOf(rows[j], col, floatText)] + KeysOf(rows[j + 1..], col, floatText)
    ensures KeysOf(rows[index..j] + rows[j + 1..], col, floatText) ==
      KeysOf(rows[index..j], col, floatText) + KeysOf(rows[j + 1..], col, floatText)
  {
    assert rows[index..] == rows[index..j] + [rows[j]] + rows[j + 1..];
    KeysOfConcat(rows[index..j] + [rows[j]], rows[j + 1..], col, floatText);
    KeysOfConcat(rows[index..j], [rows[j]], col, floatText);
    KeysOfConcat(rows[index..j], rows[j + 1..], col, floatText);
  }

  /** Taking the first of the remaining keys away on both sides. */
  lemma DropFirstKey(l: seq<Key>, index: nat, front: seq<Key>, back: seq<Key>)
    requires index < |l|
    requires multiset(l[index..]) == multiset(front + [l[index]] + back)
    ensures multiset(l[index + 1..]) == multiset(front + back)
  {
    assert l[index..] == [l[index]] + l[index + 1..];
    assert multiset(front + [l[index]] + back) == multiset(front + back) + multiset{l[index]};
    MultisetCancel(multiset(l[index + 1..]), multiset(front + back), l[index]);
  }

  /** The rows with the row at `j` taken out and put at `index`. */
  function Moved(rows: seq<Row>, index: nat, j: nat): seq<Row>
    requires index <= j < |rows|
  {
    rows[..index] + [rows[j]] + rows[index..j] + rows[j + 1..]
  }

  /** Where the rows stand after the row at `j` is put at `index`. */
  lemma MovedShape(rows: seq<Row>, index: nat, j: nat)
    requires index <= j < |rows|
    ensures |Moved(rows, index, j)| == |rows|
    ensures forall a :: 0 <= a < index ==> Moved(rows, index, j)[a] == rows[a]
    ensures Moved(rows, index, j)[index] == rows[j]
    ensures Moved(rows, index, j)[index + 1..] == rows[index..j] + rows[j + 1..]
  {
  }

  /** Moving the row found at `j` forward to `index` is the move of
      treeview `move(k, '', index)`, and it only reorders the rows. */
  lemma MoveForward(rows: seq<Row>, k: ItemId, index: nat, j: nat)
    requires index <= j < |rows| && j == FindId(rows, k)
    ensures MoveTo(rows, k, index) == Moved(rows, index, j)
    ensures multiset(Moved(rows, index, j)) == multiset(rows)
  {
    var front, back := rows[..j], rows[j + 1..];
    assert MoveTo(rows, k, index) == (front + back)[..index] + [rows[j]] + (front + back)[index..];
    SpliceAt(front, back, rows[j], index);
    assert front[..index] == rows[..index] && front[index..] == rows[index..j];
    MovedPermutes(rows, index, j);
  }

  /** Putting `x` at `index` of `a + b`, where `index` falls within `a`. */
  lemma SpliceAt<T>(a: seq<T>, b: seq<T>, x: T, index: nat)
    requires index <= |a|
    ensures (a + b)[..index] + [x] + (a + b)[index..] == a[..index] + [x] + a[index..] + b
  {
    assert (a + b)[..index] == a[..index];
    assert (a + b)[index..] == a[index..] + b;
  }

  /** Moving the row that carries the next key to `index` extends the
      sorted part by one and keeps the remaining keys those of the
      remaining rows. */
  lemma MoveKeys(rows: seq<Row>, l: seq<Key>, index: nat, j: nat, col: Column, floatText: real -> string)
    requires index <= j < |rows| && index < |l|
    requires KeyOf(rows[j], col, floatText) == l[index]
    requires forall a :: 0 <= a < index ==> KeyOf(rows[a], col, floatText) == l[a]
    requires multiset(l[index..]) == multiset(KeysOf(rows[index..], col, floatText))
    ensures forall a :: 0 <= a <= index ==> KeyOf(Moved(rows, index, j)[a], col, floatText) == l[a]
    ensures multiset(l[index + 1..]) == multiset(KeysOf(Moved(rows, index, j)[index + 1..], col, floatText))
  {
    MovedShape(rows, index, j);
    KeysAround(rows, index, j, col, floatText);
    DropFirstKey(l, index, KeysOf(rows[index..j], col, floatText), KeysOf(rows[j + 1..], col, floatText));
  }

  /** One step of the loop that moves rows into sorted order: the row
      with the id of `l[index]` stands at some `j` at or after `index`, and
      moving it to `index` extends the sorted part by one and keeps the
      remaining keys those of the remaining rows. */
  lemma MoveStep(rows: seq<Row>, l: seq<Key>, index: nat, col: Column, floatText: real -> string)
    returns (j: nat)
    requires UniqueRows(rows)
    requires index < |l| == |rows|
    requires forall a :: 0 <= a < index ==> KeyOf(rows[a], col, floatText) == l[a]
    requires multiset(l[index..]) == multiset(KeysOf(rows[index..], col, floatText))
    ensures index <= j < |rows| && j == FindId(rows, l[index].1)
    ensures MoveTo(rows, l[index].1, index) == Moved(rows, index, j)
    ensures multiset(Moved(rows, index, j)) == multiset(rows)
    ensures forall a :: 0 <= a <= index ==> KeyOf(Moved(rows, index, j)[a], col, floatText) == l[a]
    ensures multiset(l[index + 1..]) == multiset(KeysOf(Moved(rows, index, j)[index + 1..], col, floatText))
  {
    j := LocateNext(rows, l, index, col, floatText);
    FindUnique(rows, l[index].1, j);
    MoveForward(rows, l[index].1, index, j);
    MoveKeys(rows, l, index, j, col, floatText);
  }
}
