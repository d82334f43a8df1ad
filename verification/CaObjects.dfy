/** The database as the program holds it: rows are objects edited in place, shared between the row
    list and the two indexes. Every method is proved against the value model of CaDatabase. */
module CaObjects {
  import opened CStrings
  import opened Options
  import opened TxtDbFile
  import opened CaDatabase
  import CaSessions
  import SerialNames
  import Revocation

  class Entry {
    var typ: string
    var rev: Field
    const exp: string
    const serial: string
    const file: string
    const name: string

    constructor (r: Row)
      ensures Value() == r
    {
      typ, rev, exp, serial, file, name := r.typ, r.rev, r.exp, r.serial, r.file, r.name;
    }

    function Value(): Row
      reads this
    {
      Row(typ, exp, rev, serial, file, name)
    }

    function Key(): string { SerialNames.Key(serial) }

    /** The edit of do_updatedb. */
    method Expire(now: string) returns (changed: bool)
      modifies this
      ensures Value() == ExpireRow(old(Value()), now) && changed == Expires(old(Value()), now)
    {
      changed := Expires(Value(), now);
      if changed {
        typ := "E";
      }
    }

    /** The checks and the edit at the end of do_revoke. */
    method Revoke(subject: string, q: Request, oid: string -> bool) returns (ok: bool)
      modifies this
      ensures ok == RevokedRow(old(Value()), subject, q, oid).Some?
      ensures Value() == if ok then RevokedRow(old(Value()), subject, q, oid).value else old(Value())
    {
      if StrCmp(subject, name) != 0 {
        return false;
      }
      if Type(Value()) == 'R' {
        return false;
      }
      var s := Revocation.MakeRevocationStr(q.now, q.t, q.arg, oid);
      if s.None? {
        return false;
      }
      typ := "R";
      rev := s;
      return true;
    }

    /** One round of the CRL loop. */
    method CrlEntry(oid: string -> bool) returns (e: Option<CaSessions.CrlEntry>)
      requires NulFree(Text(rev))
      ensures e == CaSessions.Entry(Value(), oid)
    {
      var info := Revocation.UnpackRevInfo(Text(rev), oid);
      if info.None? || serial == "" {
        return None;
      }
      return Some(CaSessions.CrlEntry(CaSessions.Number(serial), info.value));
    }
  }

  function Values(data: seq<Entry>): (rows: seq<Row>)
    reads data
    ensures |rows| == |data| && forall i :: 0 <= i < |data| ==> rows[i] == data[i].Value()
  {
    seq(|data|, i requires 0 <= i < |data| reads data => data[i].Value())
  }

  /** The serial index holds exactly the rows `data`, each under its key. */
  ghost predicate Indexes(idx: map<string, Entry>, data: seq<Entry>) {
    && (forall i :: 0 <= i < |data| ==> data[i].Key() in idx && idx[data[i].Key()] == data[i])
    && (forall k :: k in idx ==> idx[k] in data && idx[k].Key() == k)
  }

  lemma IndexOneMore(idx: map<string, Entry>, data: seq<Entry>, r: Entry)
    requires Indexes(idx, data) && r.Key() !in idx
    ensures Indexes(idx[r.Key() := r], data + [r])
  {
  }

  /** Rows under an index have distinct serials; a clash means that they have not. */
  lemma IndexedMeansDistinct(idx: map<string, Entry>, data: seq<Entry>)
    requires Indexes(idx, data) && forall i, j :: 0 <= i < j < |data| ==> data[i] != data[j]
    ensures DistinctSerials(Values(data))
  {
    forall i, j | 0 <= i < j < |data|
      ensures SerialNames.Key(Values(data)[i].serial) != SerialNames.Key(Values(data)[j].serial)
    {
      assert data[i].Key() != data[j].Key();
    }
  }

  lemma ClashMeansNotDistinct(idx: map<string, Entry>, data: seq<Entry>, i: nat)
    requires i < |data| && Indexes(idx, data[..i]) && data[i].Key() in idx
    ensures !DistinctSerials(Values(data))
  {
    var j :| 0 <= j < i && data[..i][j] == idx[data[i].Key()];
    var rows := Values(data);
    assert SerialNames.Key(rows[j].serial) == SerialNames.Key(rows[i].serial);
  }

  lemma NoNames()
    ensures ValidNames([]) == {} && DistinctValidNames([])
  {
  }

  /** What one more row does to the valid subjects. */
  lemma NameOneMore(rows: seq<Row>, r: Row)
    ensures ValidNames(rows + [r]) == if Type(r) == 'V' then ValidNames(rows) + {r.name} else ValidNames(rows)
    ensures DistinctValidNames(rows) ==>
              (DistinctValidNames(rows + [r]) <==> !(Type(r) == 'V' && r.name in ValidNames(rows)))
  {
    assert (rows + [r])[|rows|] == r && forall i :: 0 <= i < |rows| ==> (rows + [r])[i] == rows[i];
  }

  lemma PrefixDistinct(rows: seq<Row>, k: nat)
    requires k <= |rows| && DistinctValidNames(rows)
    ensures DistinctValidNames(rows[..k])
  {
  }

  lemma ValuesSnoc(data: seq<Entry>, r: Entry)
    ensures Values(data + [r]) == Values(data) + [r.Value()]
  {
  }

  /** What an accepted insertion gives. */
  lemma Inserted(db: Db, r: Row)
    ensures var d := Insert(db, r); var indexed := db.unique && Type(r) == 'V';
            d.Some? ==> d.value == Db(db.rows + [r], db.unique, if indexed then db.names + {r.name} else db.names)
  {
  }

  lemma CountOneMore(rows: seq<Row>, i: nat, now: string)
    requires i < |rows|
    ensures ExpireCount(rows[..i + 1], now) == ExpireCount(rows[..i], now) + if Expires(rows[i], now) then 1 else 0
  {
    assert rows[..i + 1][..i] == rows[..i];
  }

  class TxtDb {
    var data: seq<Entry>
    var serialIndex: map<string, Entry>
    var nameIndex: map<string, Entry>
    const unique: bool
    ghost var Repr: set<object>

    /** The hash tables hold pointers to listed rows under the key that never changes. The serial
        index holds every row, the name index at least whatever Contents says. */
    ghost predicate Valid()
      reads this
    {
      RowsValid() && Indexes(serialIndex, data) && NamesValid()
    }

    ghost predicate RowsValid()
      reads this
    {
      && this in Repr && (forall i :: 0 <= i < |data| ==> data[i] in Repr)
      && (forall i, j :: 0 <= i < j < |data| ==> data[i] != data[j])
    }

    ghost predicate NamesValid()
      reads this
    {
      && (forall n :: n in nameIndex ==> nameIndex[n] in data && nameIndex[n].name == n)
      && (!unique ==> nameIndex == map[])
    }

    ghost function Contents(): Db
      reads this, data
    {
      Db(Values(data), unique, nameIndex.Keys)
    }

    /** A serial lookup finds the row that the value model finds. */
    lemma LookupIsFind(key: string)
      requires Valid()
      ensures key in serialIndex <==> Find(Values(data), key) >= 0
      ensures key in serialIndex ==> serialIndex[key] == data[Find(Values(data), key)]
    {
      var rows := Values(data);
      var i := Find(rows, key);
      if key in serialIndex {
        var j :| 0 <= j < |data| && data[j] == serialIndex[key];
        assert SerialNames.Key(rows[j].serial) == key;
      }
      if i >= 0 { assert rows[i] == data[i].Value() && data[i].Key() == key; }
    }

    /** TXT_DB_get_by_index on the serial index. */
    method GetBySerial(serial: string) returns (r: Entry?, ghost k: int)
      requires Valid()
      ensures k == Find(Contents().rows, SerialNames.Key(serial))
      ensures if k < 0 then r == null else r == data[k]
      ensures r == null <==> Find(Contents().rows, SerialNames.Key(serial)) < 0
    {
      var key := SerialNames.Key(serial);
      LookupIsFind(key);
      k := Find(Values(data), key);
      r := if key in serialIndex then serialIndex[key] else null;
    }

    /** What loading leaves: rows without indexes. */
    constructor (rows: seq<Row>, unique: bool)
      ensures fresh(Repr) && RowsValid() && nameIndex == map[]
      ensures Values(data) == rows && this.unique == unique
    {
      this.unique := unique;
      data, serialIndex, nameIndex, Repr := [], map[], map[], {this};
      new;
      for i := 0 to |rows|
        invariant |data| == i && RowsValid() && fresh(Repr) && nameIndex == map[]
        invariant forall k :: 0 <= k < i ==> data[k].Value() == rows[k]
      {
        var e := new Entry(rows[i]);
        data := data + [e];
        Repr := Repr + {e};
      }
    }

    /** index_index: both indexes are built from scratch and a clash fails. */
    method CreateIndexes() returns (ok: bool)
      requires RowsValid() && nameIndex == map[]
      modifies this
      ensures data == old(data) && Repr == old(Repr)
      ensures ok <==> DistinctSerials(Values(data)) && (unique ==> DistinctValidNames(Values(data)))
      ensures ok ==> Valid() && Contents() == Loaded(Values(data), unique)
    {
      hide Indexes, DistinctSerials, DistinctValidNames, Values, ValidNames;
      ok := CreateSerialIndex();
      if !ok {
        return;
      }
      if unique {
        ok := CreateNameIndex();
      }
    }

    method CreateSerialIndex() returns (ok: bool)
      requires RowsValid()
      modifies `serialIndex
      ensures ok <==> DistinctSerials(Values(data))
      ensures ok ==> Indexes(serialIndex, data)
    {
      var idx: map<string, Entry> := map[];
      for i := 0 to |data|
        invariant Indexes(idx, data[..i])
      {
        var r := data[i];
        if r.Key() in idx {
          ClashMeansNotDistinct(idx, data, i);
          return false;
        }
        IndexOneMore(idx, data[..i], r);
        assert data[..i + 1] == data[..i] + [r];
        idx := idx[r.Key() := r];
      }
      assert data[..|data|] == data;
      IndexedMeansDistinct(idx, data);
      serialIndex := idx;
      return true;
    }

    method CreateNameIndex() returns (ok: bool)
      modifies `nameIndex
      ensures ok <==> DistinctValidNames(Values(data))
      ensures ok ==> nameIndex.Keys == ValidNames(Values(data))
      ensures ok ==> forall n :: n in nameIndex ==> nameIndex[n] in data && nameIndex[n].name == n
    {
      var idx: map<string, Entry> := map[];
      ghost var rows := Values(data);
      hide ValidNames, DistinctValidNames, Values;
      NoNames();
      for i := 0 to |data|
        invariant rows == Values(data) && idx.Keys == ValidNames(rows[..i]) && DistinctValidNames(rows[..i])
        invariant forall n :: n in idx ==> idx[n] in data && idx[n].name == n
      {
        var r := data[i];
        assert rows[i] == r.Value() && rows[..i + 1] == rows[..i] + [rows[i]];
        NameOneMore(rows[..i], rows[i]);
        if Type(r.Value()) != 'V' {
          continue;
        }
        if r.name in idx {
          if DistinctValidNames(rows) {
            PrefixDistinct(rows, i + 1);
          }
          return false;
        }
        idx := idx[r.name := r];
      }
      assert rows[..|rows|] == rows;
      nameIndex := idx;
      return true;
    }

    /** TXT_DB_insert: checks every index that takes the row, then appends and indexes it. */
    method Insert(r: Entry) returns (ok: bool)
      requires Valid() && r !in data
      modifies this
      ensures Valid() && Repr == if ok then old(Repr) + {r} else old(Repr)
      ensures ok == CaDatabase.Insert(old(Contents()), r.Value()).Some?
      ensures ok ==> data == old(data) + [r] && Contents() == CaDatabase.Insert(old(Contents()), r.Value()).value
      ensures !ok ==> data == old(data) && Contents() == old(Contents())
    {
      var clash := Clashes(r);
      if clash {
        return false;
      }
      Inserted(Contents(), r.Value());
      hide CaDatabase.Insert, Valid, Find, SerialNames.Key;
      ghost var before, value := data, r.Value();
      ghost var rows := Values(data);
      Append(r);
      ValuesSnoc(before, r);
      assert Values(before) == rows && r.Value() == value;
      return true;
    }

    /** The first loop of TXT_DB_insert. */
    method Clashes(r: Entry) returns (clash: bool)
      requires Valid()
      ensures clash == CaDatabase.Insert(Contents(), r.Value()).None?
      ensures !clash ==> r.Key() !in serialIndex
    {
      LookupIsFind(r.Key());
      return r.Key() in serialIndex || (unique && Type(r.Value()) == 'V' && r.name in nameIndex);
    }

    method Append(r: Entry)
      requires Valid() && r !in data && r.Key() !in serialIndex
      modifies this
      ensures Valid() && data == old(data) + [r] && Repr == old(Repr) + {r}
      ensures nameIndex.Keys == old(nameIndex).Keys + if unique && Type(r.Value()) == 'V' then {r.name} else {}
    {
      AppendToSerials(r);
      if unique && Type(r.Value()) == 'V' {
        nameIndex := nameIndex[r.name := r];
      }
    }

    method AppendToSerials(r: Entry)
      requires Valid() && r !in data && r.Key() !in serialIndex
      modifies `data, `serialIndex, `Repr
      ensures RowsValid() && Indexes(serialIndex, data) && data == old(data) + [r] && Repr == old(Repr) + {r}
    {
      IndexOneMore(serialIndex, data, r);
      data := data + [r];
      Repr := Repr + {r};
      serialIndex := serialIndex[r.Key() := r];
    }

    /** The end of do_body: the serial is looked up first, then the new row is inserted. */
    method Issue(cert: Cert) returns (ok: bool)
      requires Valid()
      modifies this
      ensures Valid() && fresh(Repr - old(Repr))
      ensures ok == CaDatabase.Issue(old(Contents()), cert).Some?
      ensures Contents() == if ok then CaDatabase.Issue(old(Contents()), cert).value else old(Contents())
    {
      var r, k := GetBySerial(cert.serial);
      if r != null {
        return false;
      }
      ok := AddRow(cert);
    }

    /** do_revoke: finds the row by serial, inserting it first if necessary, and edits it in place. */
    method DoRevoke(cert: Cert, q: Request, oid: string -> bool) returns (ok: bool)
      requires Valid()
      modifies Repr
      ensures Valid()
      ensures (Contents(), ok) == Revoke(old(Contents()), cert, q, oid)
      decreases if Listed(Contents(), cert) then 0 else 1
    {
      hide Revoke, RevokeAt, CaDatabase.Insert, Find;
      var r, k := GetBySerial(cert.serial);
      if r != null {
        RevokeFound(Contents(), cert, q, oid);
        ok := RevokeListed(k, r, cert.name, q, oid);
        return;
      }
      RevokeOnceInserted(Contents(), cert, q, oid);
      ok := AddRow(cert);
      if ok {
        ok := DoRevoke(cert, q, oid);
      }
    }

    method AddRow(cert: Cert) returns (ok: bool)
      requires Valid()
      modifies this
      ensures Valid() && fresh(Repr - old(Repr))
      ensures ok == CaDatabase.Insert(old(Contents()), NewRow(cert)).Some?
      ensures Contents() == if ok then CaDatabase.Insert(old(Contents()), NewRow(cert)).value
                            else old(Contents())
    {
      ghost var db := Contents();
      var r := new Entry(NewRow(cert));
      assert Contents() == db;
      ok := Insert(r);
    }

    method RevokeListed(ghost k: nat, r: Entry, subject: string, q: Request, oid: string -> bool) returns (ok: bool)
      requires Valid() && k < |data| && data[k] == r
      modifies data
      ensures Valid() && data == old(data) && Repr == old(Repr)
      ensures (Contents(), ok) == RevokeAt(old(Contents()), k, subject, q, oid)
    {
      ghost var before := Values(data);
      ok := r.Revoke(subject, q, oid);
      assert Values(data) == if ok then before[k := RevokedRow(before[k], subject, q, oid).value] else before;
    }

    /** do_updatedb: one pass over the rows, editing the type in place. */
    method DoUpdateDb(now: string) returns (count: nat)
      requires Valid()
      modifies data
      ensures Valid() && data == old(data) && Repr == old(Repr)
      ensures Contents() == old(Contents()).(rows := ExpireRows(old(Values(data)), now))
      ensures count == ExpireCount(old(Values(data)), now)
    {
      count := MarkRows(now);
    }

    method MarkRows(now: string) returns (count: nat)
      requires RowsValid()
      modifies data
      ensures Values(data) == ExpireRows(old(Values(data)), now)
      ensures count == ExpireCount(old(Values(data)), now)
    {
      ghost var before, after := Values(data), ExpireRows(Values(data), now);
      count := 0;
      assert ExpireCount(before[..0], now) == 0;
      hide ExpireCount, Expires, ExpireRow, ExpireRows;
      for i := 0 to |data|
        invariant forall k :: 0 <= k < i ==> data[k].Value() == after[k]
        invariant forall k :: i <= k < |data| ==> data[k].Value() == before[k]
        invariant count == ExpireCount(before[..i], now)
      {
        CountOneMore(before, i, now);
        var changed := data[i].Expire(now);
        if changed {
          count := count + 1;
        }
      }
      assert before[..|data|] == before;
    }

    /** get_certificate_status: the type of the row found, or None. */
    method GetCertificateStatus(query: string) returns (status: Option<char>)
      requires Valid() && NulFree(query)
      ensures var k := Find(Contents().rows, SerialNames.Key(SerialNames.StatusKey(query)));
              status == if k < 0 then None else Some(Type(Contents().rows[k]))
    {
      var row := SerialNames.MakeStatusKey(query);
      var r, k := GetBySerial(row);
      if r == null {
        return None;
      }
      return Some(Type(r.Value()));
    }

    /** The CRL loop of MAIN. */
    method MakeCrl(oid: string -> bool) returns (crl: Option<seq<CaSessions.CrlEntry>>)
      requires Valid() && forall e :: e in data ==> NulFree(Text(e.rev))
      ensures crl == CaSessions.Crl(Contents().rows, oid)
    {
      ghost var rows, entry := Values(data), r => CaSessions.Entry(r, oid);
      var out: seq<CaSessions.CrlEntry> := [];
      for i := 0 to |data|
        invariant CaSessions.Collect(rows[..i], entry) == Some(out)
      {
        CaSessions.CollectSnoc(rows, entry, i);
        hide CaSessions.Collect;
        if Type(data[i].Value()) == 'R' {
          var e := data[i].CrlEntry(oid);
          if e.None? {
            CaSessions.CollectCounts(rows, entry);
            return None;
          }
          out := out + [e.value];
        }
      }
      assert rows[..|rows|] == rows;
      return Some(out);
    }
  }
}
