/** Device records of the `glasses` table, their validation, the pairwise
    compatibility predicate `check_compat`, and the row-level operations of
    the catalog store (lookup by key, insert-or-replace, update by key). */
module Devices {
  import opened Util
  import Notch

  /** The primary key of the `glasses` table: (brand, model). */
  type DeviceKey = (string, string)

  /** One row of the `glasses` table; dimensions in millimetres and inches. */
  datatype Spec = Spec(brand: string, model: string, height: real, width: real, diagonal: real, notch: string)
  {
    function Key(): DeviceKey { (brand, model) }
    function Area(): real { height * width }
  }

  /** `validate_device_dimensions` (services.py:21-26). */
  predicate ValidDimensions(height: real, width: real, diagonal: real)
  {
    0.0 < height <= 300.0 && 0.0 < width <= 200.0 && 0.0 < diagonal <= 10.0
  }

  function Abs(x: real): real
  {
    if x < 0.0 then -x else x
  }

  /** Equal notch classes fit, and "None" fits anything from either side. */
  predicate NotchCompatible(guardNotch: string, deviceNotch: string)
  {
    guardNotch == deviceNotch || guardNotch == Notch.NoNotch || deviceNotch == Notch.NoNotch
  }

  /** `check_compat` (services.py:359-366): does `guard` fit `device`? */
  predicate CheckCompat(guard: Spec, device: Spec, heightTol: real, widthTol: real, diagonalTol: real)
  {
    var heightOk := Abs(device.height - guard.height) <= heightTol && guard.height <= device.height;
    var widthOk := Abs(device.width - guard.width) <= widthTol && guard.width <= device.width;
    var diagonalOk := Abs(device.diagonal - guard.diagonal) <= diagonalTol;
    heightOk && widthOk && diagonalOk && NotchCompatible(guard.notch, device.notch)
  }

  /** Height and width are containment with bounded slack; the diagonal is
      closeness in either direction. */
  lemma CheckCompatMeaning(guard: Spec, device: Spec, heightTol: real, widthTol: real, diagonalTol: real)
    ensures CheckCompat(guard, device, heightTol, widthTol, diagonalTol) <==>
      guard.height <= device.height <= guard.height + heightTol &&
      guard.width <= device.width <= guard.width + widthTol &&
      device.diagonal - diagonalTol <= guard.diagonal <= device.diagonal + diagonalTol &&
      NotchCompatible(guard.notch, device.notch)
  {
  }

  /** With zero tolerances only identical dimensions fit. */
  lemma CheckCompatZeroTolerance(guard: Spec, device: Spec)
    ensures CheckCompat(guard, device, 0.0, 0.0, 0.0) <==>
      guard.height == device.height && guard.width == device.width &&
      guard.diagonal == device.diagonal && NotchCompatible(guard.notch, device.notch)
  {
  }

  /** Widening any tolerance never turns a fit into a misfit. */
  lemma CheckCompatMonotone(guard: Spec, device: Spec, ht: real, wt: real, dt: real, ht': real, wt': real, dt': real)
    requires ht <= ht' && wt <= wt' && dt <= dt'
    requires CheckCompat(guard, device, ht, wt, dt)
    ensures CheckCompat(guard, device, ht', wt', dt')
  {
  }

  /** A guard strictly taller or wider than the device never fits it. */
  lemma CheckCompatRejectsLargerGuard(guard: Spec, device: Spec, ht: real, wt: real, dt: real)
    requires guard.height > device.height || guard.width > device.width
    ensures !CheckCompat(guard, device, ht, wt, dt)
  {
  }

  /** Two devices that fit each other have the same height and width (their
      diagonals may still differ). */
  lemma CheckCompatMutual(a: Spec, b: Spec, ht: real, wt: real, dt: real)
    requires CheckCompat(a, b, ht, wt, dt) && CheckCompat(b, a, ht, wt, dt)
    ensures a.height == b.height && a.width == b.width
  {
  }

  /** The relation is not symmetric: a smaller guard fits a larger phone but
      not the other way round. */
  lemma CheckCompatNotSymmetric()
    ensures var phone := Spec("Samsung", "Galaxy S21", 151.7, 71.2, 6.2, "Punch-hole");
            var guard := Spec("Generic", "Guard A", 150.0, 70.0, 6.1, "None");
            CheckCompat(guard, phone, 2.0, 2.0, 0.2) && !CheckCompat(phone, guard, 2.0, 2.0, 0.2)
  {
  }

  /** Keys are unique: the `PRIMARY KEY(brand, model)` of the table. */
  ghost predicate UniqueKeys(rows: seq<Spec>)
  {
    forall i, j :: 0 <= i < j < |rows| ==> rows[i].Key() != rows[j].Key()
  }

  /** The first row with the given key (`SELECT ... WHERE brand=? AND model=?`
      followed by `fetchone`). */
  function Lookup(rows: seq<Spec>, key: DeviceKey): (r: Option<Spec>)
    ensures r.Some? ==> r.value in rows && r.value.Key() == key
    ensures r.None? <==> forall i :: 0 <= i < |rows| ==> rows[i].Key() != key
  {
    if rows == [] then None
    else if rows[0].Key() == key then Some(rows[0])
    else Lookup(rows[1..], key)
  }

  lemma {:induction false} UniqueKeysTail(rows: seq<Spec>)
    requires UniqueKeys(rows) && rows != []
    ensures UniqueKeys(rows[1..])
    ensures forall s :: s in rows[1..] ==> s.Key() != rows[0].Key()
  {
    forall s | s in rows[1..] ensures s.Key() != rows[0].Key() {
      var j :| 0 <= j < |rows[1..]| && rows[1..][j] == s;
      assert rows[j + 1] == s;
    }
  }

  /** With unique keys, every row is the one its key finds. */
  lemma {:induction false} LookupFindsRow(rows: seq<Spec>, s: Spec)
    requires UniqueKeys(rows) && s in rows
    ensures Lookup(rows, s.Key()) == Some(s)
    decreases |rows|
  {
    if rows[0] != s {
      UniqueKeysTail(rows);
      assert s in rows[1..];
      LookupFindsRow(rows[1..], s);
    }
  }

  /** A subsequence of a table with unique keys has unique keys. */
  lemma {:induction false} SubseqUniqueKeys(a: seq<Spec>, b: seq<Spec>)
    requires Subseq(a, b) && UniqueKeys(b)
    ensures UniqueKeys(a)
    decreases |b|
  {
    if a != [] {
      UniqueKeysTail(b);
      if a[0] == b[0] && Subseq(a[1..], b[1..]) {
        SubseqUniqueKeys(a[1..], b[1..]);
        SubseqMembers(a[1..], b[1..]);
        forall i, j | 0 <= i < j < |a| ensures a[i].Key() != a[j].Key() {
          if i > 0 {
            assert a[i] == a[1..][i - 1] && a[j] == a[1..][j - 1];
          } else {
            assert a[j] in a[1..];
          }
        }
      } else {
        SubseqUniqueKeys(a, b[1..]);
      }
    }
  }

  lemma {:induction false} LookupAppend(a: seq<Spec>, b: seq<Spec>, key: DeviceKey)
    ensures Lookup(a + b, key) == if Lookup(a, key).Some? then Lookup(a, key) else Lookup(b, key)
    decreases |a|
  {
    if a == [] {
      assert a + b == b;
    } else {
      assert (a + b)[0] == a[0];
      assert (a + b)[1..] == a[1..] + b;
      LookupAppend(a[1..], b, key);
    }
  }

  /** The rows whose key is not `key` (the delete half of a REPLACE). */
  function RemoveKey(rows: seq<Spec>, key: DeviceKey): seq<Spec>
  {
    Filter(rows, (s: Spec) => s.Key() != key)
  }

  lemma {:induction false} LookupRemoveKey(rows: seq<Spec>, key: DeviceKey, other: DeviceKey)
    requires other != key
    ensures Lookup(RemoveKey(rows, key), other) == Lookup(rows, other)
    decreases |rows|
  {
    if rows != [] {
      LookupRemoveKey(rows[1..], key, other);
    }
  }

  /** `INSERT OR REPLACE` of `row`: SQLite deletes the row holding the same
      key and inserts the new one with a fresh rowid, i.e. last in scan order. */
  function Upsert(rows: seq<Spec>, row: Spec): seq<Spec>
  {
    RemoveKey(rows, row.Key()) + [row]
  }

  /** An insert-or-replace keeps the keys unique. */
  lemma UpsertUniqueKeys(rows: seq<Spec>, row: Spec)
    requires UniqueKeys(rows)
    ensures UniqueKeys(Upsert(rows, row))
  {
    var kept := RemoveKey(rows, row.Key());
    SubseqUniqueKeys(kept, rows);
    var r := Upsert(rows, row);
    forall i, j | 0 <= i < j < |r| ensures r[i].Key() != r[j].Key() {
      if j == |kept| {
        assert r[i] == kept[i];
        assert kept[i] in kept;
      } else {
        assert r[i] == kept[i] && r[j] == kept[j];
      }
    }
  }

  /** After an insert-or-replace the key finds exactly the new row, every
      other key finds what it found before, and keys stay unique. */
  lemma UpsertReplaces(rows: seq<Spec>, row: Spec)
    requires UniqueKeys(rows)
    ensures UniqueKeys(Upsert(rows, row))
    ensures Lookup(Upsert(rows, row), row.Key()) == Some(row)
    ensures forall k :: k != row.Key() ==> Lookup(Upsert(rows, row), k) == Lookup(rows, k)
  {
    var kept := RemoveKey(rows, row.Key());
    UpsertUniqueKeys(rows, row);
    assert Lookup(kept, row.Key()).None?;
    LookupAppend(kept, [row], row.Key());
    forall k | k != row.Key() ensures Lookup(Upsert(rows, row), k) == Lookup(rows, k) {
      LookupAppend(kept, [row], k);
      LookupRemoveKey(rows, row.Key(), k);
    }
  }

  /** `UPDATE glasses SET ... WHERE brand=? AND model=?`: rows with the key
      get the new dimensions and notch; nothing is inserted. */
  function UpdateRows(rows: seq<Spec>, key: DeviceKey, height: real, width: real, diagonal: real, notch: string): (r: seq<Spec>)
    ensures |r| == |rows| && forall i :: 0 <= i < |r| ==> r[i].Key() == rows[i].Key()
  {
    seq(|rows|, i requires 0 <= i < |rows| =>
      if rows[i].Key() == key then rows[i].(height := height, width := width, diagonal := diagonal, notch := notch)
      else rows[i])
  }

  /** The updated row: same key, new dimensions and notch class. */
  function Updated(s: Spec, height: real, width: real, diagonal: real, notch: string): Spec
  {
    s.(height := height, width := width, diagonal := diagonal, notch := notch)
  }

  lemma UpdateRowsTail(rows: seq<Spec>, key: DeviceKey, height: real, width: real, diagonal: real, notch: string)
    requires rows != []
    ensures UpdateRows(rows, key, height, width, diagonal, notch)[1..] == UpdateRows(rows[1..], key, height, width, diagonal, notch)
  {
  }

  /** The key now finds the old row with the new values, or nothing when
      there was no such row. */
  lemma {:induction false} UpdateRowsLookup(rows: seq<Spec>, key: DeviceKey, height: real, width: real, diagonal: real, notch: string)
    ensures Lookup(UpdateRows(rows, key, height, width, diagonal, notch), key) ==
      match Lookup(rows, key)
      case None => None
      case Some(s) => Some(Updated(s, height, width, diagonal, notch))
    decreases |rows|
  {
    if rows != [] {
      UpdateRowsTail(rows, key, height, width, diagonal, notch);
      UpdateRowsLookup(rows[1..], key, height, width, diagonal, notch);
    }
  }

  /** Every other key finds what it found before. */
  lemma {:induction false} UpdateRowsOthers(rows: seq<Spec>, key: DeviceKey, height: real, width: real, diagonal: real, notch: string, other: DeviceKey)
    requires other != key
    ensures Lookup(UpdateRows(rows, key, height, width, diagonal, notch), other) == Lookup(rows, other)
    decreases |rows|
  {
    if rows != [] {
      UpdateRowsTail(rows, key, height, width, diagonal, notch);
      UpdateRowsOthers(rows[1..], key, height, width, diagonal, notch, other);
    }
  }

  /** An update of a key no row has changes nothing: it never inserts. */
  lemma UpdateRowsAbsent(rows: seq<Spec>, key: DeviceKey, height: real, width: real, diagonal: real, notch: string)
    requires Lookup(rows, key).None?
    ensures UpdateRows(rows, key, height, width, diagonal, notch) == rows
  {
  }

  /** An update keeps the keys unique. */
  lemma UpdateRowsUniqueKeys(rows: seq<Spec>, key: DeviceKey, height: real, width: real, diagonal: real, notch: string)
    requires UniqueKeys(rows)
    ensures UniqueKeys(UpdateRows(rows, key, height, width, diagonal, notch))
  {
  }

  /** `name.split(" ", 1)` as used by `add_phone` (services.py:244-246): the
      brand is the text before the first space, the model the rest; without
      a space the model is empty. */
  function SplitName(name: string): (r: DeviceKey)
    ensures ' ' in name ==> r.0 + " " + r.1 == name && ' ' !in r.0
    ensures ' ' !in name ==> r == (name, "")
  {
    if name == [] then ("", "")
    else if name[0] == ' ' then ("", name[1..])
    else
      var rest := SplitName(name[1..]);
      assert name == [name[0]] + name[1..];
      ([name[0]] + rest.0, rest.1)
  }

  /** Joining a space-free brand and a model with one space and splitting
      again gives back the brand and the model. */
  lemma {:induction false} SplitNameJoin(brand: string, model: string)
    requires ' ' !in brand
    ensures SplitName(brand + " " + model) == (brand, model)
    decreases |brand|
  {
    if brand == [] {
      assert brand + " " + model == [' '] + model;
    } else {
      assert (brand + " " + model)[0] == brand[0] != ' ';
      assert (brand + " " + model)[1..] == brand[1..] + " " + model;
      SplitNameJoin(brand[1..], model);
      assert [brand[0]] + brand[1..] == brand;
    }
  }
}
