/**
 * The employee emergency-contact DAO: sequence-number allocation and range
 * check on save, bulk delete by (employee, seqNo list), lookup by key and the
 * per-employee list ordered by name. The ORM is abstracted as the contact
 * table, a sequence of rows keyed by (empNumber, seqNo).
 */
module EmergencyContacts {
  import opened Wrappers
  import opened PhpStrings

  /** A stored contact row; its key is (empNumber, seqNo). */
  datatype Contact = Contact(empNumber: int, seqNo: int, name: string)

  /**
   * The field values of a contact entity handed to save. Its seqNo is the
   * entity's decimal field, a string; a new entity carries the default "0".
   */
  datatype ContactDraft = ContactDraft(empNumber: int, seqNo: string, name: string)

  /** `InvalidArgumentException('Invalid `seqNo`')`. */
  datatype DaoError = InvalidSeqNo

  /** The seqNo value that asks for automatic assignment (compared with `===`). */
  const AutoAssign: string := "0"

  /** The accepted seqNo values: 1 through 99. */
  predicate InRange(seqNo: int) {
    seqNo < 100 && seqNo > 0
  }

  predicate HasKey(x: Contact, empNumber: int, seqNo: int) {
    x.empNumber == empNumber && x.seqNo == seqNo
  }

  predicate KeyAbsent(t: seq<Contact>, empNumber: int, seqNo: int) {
    forall x :: x in t ==> !HasKey(x, empNumber, seqNo)
  }

  /** Every stored seqNo is in range and no two rows share a key. */
  predicate WellFormed(t: seq<Contact>) {
    && (forall i :: 0 <= i < |t| ==> InRange(t[i].seqNo))
    && (forall i, j :: 0 <= i < j < |t| ==> !HasKey(t[j], t[i].empNumber, t[i].seqNo))
  }

  predicate HasContacts(t: seq<Contact>, empNumber: int) {
    exists x :: x in t && x.empNumber == empNumber
  }

  lemma WellFormedCons(x: Contact, u: seq<Contact>)
    ensures WellFormed([x] + u) <==> InRange(x.seqNo) && KeyAbsent(u, x.empNumber, x.seqNo) && WellFormed(u)
  {
    var t := [x] + u;
    assert forall i :: 0 <= i < |u| ==> u[i] == t[i + 1];
    if InRange(x.seqNo) && KeyAbsent(u, x.empNumber, x.seqNo) && WellFormed(u) {
      forall i, j | 0 <= i < j < |t|
        ensures !HasKey(t[j], t[i].empNumber, t[i].seqNo)
      {
        if i > 0 {
          assert t[i] == u[i - 1] && t[j] == u[j - 1];
        } else {
          assert t[j] in u;
        }
      }
    }
    if WellFormed(t) {
      assert t[0] == x;
      forall y | y in u
        ensures !HasKey(y, x.empNumber, x.seqNo)
      {
        var j :| 0 <= j < |u| && u[j] == y;
        assert t[j + 1] == y;
      }
      forall i, j | 0 <= i < j < |u|
        ensures !HasKey(u[j], u[i].empNumber, u[i].seqNo)
      {
        assert t[i + 1] == u[i] && t[j + 1] == u[j];
      }
    }
  }

  // ---------------------------------------------------------------------
  // Sequence-number allocation
  // ---------------------------------------------------------------------

  /** `MAX(seqNo)` over the employee's rows; `None` (SQL NULL) when there are none. */
  function MaxSeqNo(t: seq<Contact>, empNumber: int): (m: Option<int>)
    ensures m.None? <==> !HasContacts(t, empNumber)
    ensures m.Some? ==> exists x :: x in t && HasKey(x, empNumber, m.value)
    ensures m.Some? ==> forall x :: x in t && x.empNumber == empNumber ==> x.seqNo <= m.value
  {
    if t == [] then None
    else
      var rest := MaxSeqNo(t[1..], empNumber);
      assert forall x :: x in t <==> x == t[0] || x in t[1..];
      if t[0].empNumber != empNumber then rest
      else if rest.Some? && rest.value >= t[0].seqNo then rest
      else Some(t[0].seqNo)
  }

  /** The seqNo auto-assignment gives: one more than the employee's largest, or 1. */
  function NextSeqNo(t: seq<Contact>, empNumber: int): (n: int)
    ensures !HasContacts(t, empNumber) ==> n == 1
    ensures HasContacts(t, empNumber) ==> exists x :: x in t && HasKey(x, empNumber, n - 1)
    ensures forall x :: x in t && x.empNumber == empNumber ==> x.seqNo < n
  {
    match MaxSeqNo(t, empNumber)
    case None => 1
    case Some(m) => m + 1
  }

  /**
   * The entity's seqNo text once save has resolved it: unchanged, or, when it
   * is exactly "0", the auto-assigned number written as a decimal string.
   */
  function SeqNoText(t: seq<Contact>, c: ContactDraft): (s: string)
    ensures c.seqNo != AutoAssign ==> s == c.seqNo
    ensures c.seqNo == AutoAssign ==> IntVal(s) == NextSeqNo(t, c.empNumber)
  {
    if c.seqNo == AutoAssign then
      var next := NextSeqNo(t, c.empNumber);
      IntValOfDecimal(next);
      Decimal(next)
    else
      c.seqNo
  }

  /**
   * The seqNo save range-checks: the entity's own value read by `intval`, or,
   * when it is exactly "0", the auto-assigned number (stored as a string and
   * read back).
   */
  function FinalSeqNo(t: seq<Contact>, c: ContactDraft): (n: int)
    ensures c.seqNo == AutoAssign ==> n == NextSeqNo(t, c.empNumber)
    ensures c.seqNo != AutoAssign ==> n == IntVal(c.seqNo)
  {
    IntVal(SeqNoText(t, c))
  }

  /**
   * On a well-formed table the auto-assigned text is never "0" again, so
   * saving the same entity a second time, even after a rejection, range-checks
   * the number it was given and does not auto-assign anew.
   */
  lemma ResavedEntityNotReassigned(t: seq<Contact>, c: ContactDraft)
    requires WellFormed(t)
    requires c.seqNo == AutoAssign
    ensures SeqNoText(t, c) != AutoAssign
    ensures FinalSeqNo(t, c.(seqNo := SeqNoText(t, c))) == FinalSeqNo(t, c)
  {
    var n := NextSeqNo(t, c.empNumber);
    if HasContacts(t, c.empNumber) {
      var y :| y in t && HasKey(y, c.empNumber, n - 1);
      var i :| 0 <= i < |t| && t[i] == y;
      assert InRange(t[i].seqNo);
    }
    assert n >= 1;
    NaturalDecimalValue(n);
    NaturalDecimalValue(0);
    assert NaturalDecimal(0) == AutoAssign;
  }

  /** Auto-assignment after an employee's seqNo 99 yields 100, which save rejects. */
  lemma AutoAssignAfter99Rejected(t: seq<Contact>, c: ContactDraft)
    requires c.seqNo == AutoAssign
    requires MaxSeqNo(t, c.empNumber) == Some(99)
    ensures FinalSeqNo(t, c) == 100 && !InRange(FinalSeqNo(t, c))
  {
  }

  /** An auto-assigned seqNo never collides with a key the employee already has. */
  lemma AutoAssignedKeyIsFresh(t: seq<Contact>, c: ContactDraft)
    requires c.seqNo == AutoAssign
    ensures KeyAbsent(t, c.empNumber, FinalSeqNo(t, c))
    ensures Lookup(t, c.empNumber, FinalSeqNo(t, c)) == None
  {
  }

  /** On a well-formed table, auto-assignment is accepted exactly while the employee's largest seqNo is below 99. */
  lemma AutoAssignAccepted(t: seq<Contact>, c: ContactDraft)
    requires WellFormed(t)
    requires c.seqNo == AutoAssign
    ensures InRange(FinalSeqNo(t, c)) <==> (forall x :: x in t && x.empNumber == c.empNumber ==> x.seqNo < 99)
  {
  }

  // ---------------------------------------------------------------------
  // Lookup, persist and delete over the table
  // ---------------------------------------------------------------------

  /** `findOneBy(['seqNo' => seqNo, 'empNumber' => empNumber])`: the matching row, or null. */
  function Lookup(t: seq<Contact>, empNumber: int, seqNo: int): (r: Option<Contact>)
    ensures r.Some? ==> r.value in t && HasKey(r.value, empNumber, seqNo)
    ensures r.None? <==> KeyAbsent(t, empNumber, seqNo)
  {
    if t == [] then None
    else if HasKey(t[0], empNumber, seqNo) then Some(t[0])
    else
      assert forall x :: x in t <==> x == t[0] || x in t[1..];
      Lookup(t[1..], empNumber, seqNo)
  }

  /**
   * `persist`: the row replaces the one with the same key, in place, or is
   * appended when the key is new.
   */
  function Persist(t: seq<Contact>, row: Contact): (u: seq<Contact>)
    ensures row in u
    ensures forall x :: x in u ==> x == row || x in t
  {
    if t == [] then [row]
    else if HasKey(t[0], row.empNumber, row.seqNo) then [row] + t[1..]
    else [t[0]] + Persist(t[1..], row)
  }

  /** Persisting a row whose key is new appends it. */
  lemma {:induction false} PersistFreshAppends(t: seq<Contact>, row: Contact)
    requires KeyAbsent(t, row.empNumber, row.seqNo)
    ensures Persist(t, row) == t + [row]
  {
    if t != [] {
      assert t[0] in t;
      PersistFreshAppends(t[1..], row);
      assert t == [t[0]] + t[1..];
    }
  }

  /** Persisting an in-range row keeps the table well formed. */
  lemma {:induction false} PersistWellFormed(t: seq<Contact>, row: Contact)
    requires WellFormed(t) && InRange(row.seqNo)
    ensures WellFormed(Persist(t, row))
  {
    WellFormedCons(row, []);
    if t != [] {
      assert t == [t[0]] + t[1..];
      WellFormedCons(t[0], t[1..]);
      if HasKey(t[0], row.empNumber, row.seqNo) {
        WellFormedCons(row, t[1..]);
      } else {
        PersistWellFormed(t[1..], row);
        WellFormedCons(t[0], Persist(t[1..], row));
      }
    }
  }

  /** After persisting a row, looking up its key finds it, and every other key finds what it found before. */
  lemma {:induction false} PersistThenLookup(t: seq<Contact>, row: Contact, empNumber: int, seqNo: int)
    ensures Lookup(Persist(t, row), empNumber, seqNo)
            == if HasKey(row, empNumber, seqNo) then Some(row) else Lookup(t, empNumber, seqNo)
  {
    if t != [] && !HasKey(t[0], row.empNumber, row.seqNo) {
      PersistThenLookup(t[1..], row, empNumber, seqNo);
    }
  }

  /** The DELETE's WHERE clause: the employee's rows whose seqNo is in the list. */
  predicate Selected(x: Contact, empNumber: int, seqNos: seq<int>) {
    x.empNumber == empNumber && x.seqNo in seqNos
  }

  /** The rows the DELETE matches, in table order. */
  function Selection(t: seq<Contact>, empNumber: int, seqNos: seq<int>): (u: seq<Contact>)
    ensures forall x :: x in u <==> x in t && Selected(x, empNumber, seqNos)
  {
    if t == [] then []
    else
      assert forall x :: x in t <==> x == t[0] || x in t[1..];
      (if Selected(t[0], empNumber, seqNos) then [t[0]] else []) + Selection(t[1..], empNumber, seqNos)
  }

  /** The table after the DELETE: every row it does not match, in table order. */
  function Remove(t: seq<Contact>, empNumber: int, seqNos: seq<int>): (u: seq<Contact>)
    ensures forall x :: x in u <==> x in t && !Selected(x, empNumber, seqNos)
  {
    if t == [] then []
    else
      assert forall x :: x in t <==> x == t[0] || x in t[1..];
      (if Selected(t[0], empNumber, seqNos) then [] else [t[0]]) + Remove(t[1..], empNumber, seqNos)
  }

  /** The DELETE splits the table into the rows kept and the rows removed, and removes exactly |Selection| rows. */
  lemma {:induction false} RemovePartition(t: seq<Contact>, empNumber: int, seqNos: seq<int>)
    ensures multiset(t) == multiset(Remove(t, empNumber, seqNos)) + multiset(Selection(t, empNumber, seqNos))
    ensures |t| == |Remove(t, empNumber, seqNos)| + |Selection(t, empNumber, seqNos)|
  {
    if t != [] {
      RemovePartition(t[1..], empNumber, seqNos);
      assert t == [t[0]] + t[1..];
    }
  }

  /** The DELETE keeps the surviving rows in table order: it distributes over any split of the table. */
  lemma {:induction false} RemoveKeepsOrder(a: seq<Contact>, b: seq<Contact>, empNumber: int, seqNos: seq<int>)
    ensures Remove(a + b, empNumber, seqNos) == Remove(a, empNumber, seqNos) + Remove(b, empNumber, seqNos)
  {
    if a == [] {
      assert a + b == b;
    } else {
      assert (a + b)[0] == a[0];
      assert (a + b)[1..] == a[1..] + b;
      RemoveKeepsOrder(a[1..], b, empNumber, seqNos);
    }
  }

  /** After the DELETE, a key it did not select finds what it found before. */
  lemma {:induction false} RemoveKeepsOtherKeys(t: seq<Contact>, empNumber: int, seqNos: seq<int>, e: int, s: int)
    requires !(e == empNumber && s in seqNos)
    ensures Lookup(Remove(t, empNumber, seqNos), e, s) == Lookup(t, e, s)
  {
    if t != [] {
      var rest := Remove(t[1..], empNumber, seqNos);
      if Selected(t[0], empNumber, seqNos) {
        assert Remove(t, empNumber, seqNos) == rest;
        assert !HasKey(t[0], e, s);
        RemoveKeepsOtherKeys(t[1..], empNumber, seqNos, e, s);
      } else {
        var u := [t[0]] + rest;
        assert Remove(t, empNumber, seqNos) == u;
        if !HasKey(t[0], e, s) {
          assert u[1..] == rest;
          RemoveKeepsOtherKeys(t[1..], empNumber, seqNos, e, s);
        }
      }
    }
  }

  /** After the DELETE, the deleted keys find nothing and every other key finds what it found before. */
  lemma RemoveThenLookup(t: seq<Contact>, empNumber: int, seqNos: seq<int>, e: int, s: int)
    ensures Lookup(Remove(t, empNumber, seqNos), e, s)
            == if e == empNumber && s in seqNos then None else Lookup(t, e, s)
  {
    if !(e == empNumber && s in seqNos) {
      RemoveKeepsOtherKeys(t, empNumber, seqNos, e, s);
    }
  }

  /** Removing rows keeps the table well formed. */
  lemma {:induction false} RemoveWellFormed(t: seq<Contact>, empNumber: int, seqNos: seq<int>)
    requires WellFormed(t)
    ensures WellFormed(Remove(t, empNumber, seqNos))
  {
    if t != [] {
      assert t == [t[0]] + t[1..];
      WellFormedCons(t[0], t[1..]);
      RemoveWellFormed(t[1..], empNumber, seqNos);
      if !Selected(t[0], empNumber, seqNos) {
        WellFormedCons(t[0], Remove(t[1..], empNumber, seqNos));
      }
    }
  }

  // ---------------------------------------------------------------------
  // The per-employee list, ordered by name
  // ---------------------------------------------------------------------

  /** Ascending name order: lexicographic on character codes. */
  predicate NameLe(a: string, b: string) {
    a == [] || (b != [] && (a[0] < b[0] || (a[0] == b[0] && NameLe(a[1..], b[1..]))))
  }

  lemma {:induction false} NameLeTotal(a: string, b: string)
    ensures NameLe(a, b) || NameLe(b, a)
  {
    if a != [] && b != [] && a[0] == b[0] {
      NameLeTotal(a[1..], b[1..]);
    }
  }

  lemma {:induction false} NameLeTransitive(a: string, b: string, c: string)
    requires NameLe(a, b) && NameLe(b, c)
    ensures NameLe(a, c)
  {
    if a != [] && a[0] == b[0] && b[0] == c[0] {
      NameLeTransitive(a[1..], b[1..], c[1..]);
    }
  }

  lemma {:induction false} NameLeAntisymmetric(a: string, b: string)
    requires NameLe(a, b) && NameLe(b, a)
    ensures a == b
  {
    if a != [] {
      NameLeAntisymmetric(a[1..], b[1..]);
      assert a == [a[0]] + a[1..] && b == [b[0]] + b[1..];
    }
  }

  predicate SortedByName(s: seq<Contact>) {
    forall i, j :: 0 <= i < j < |s| ==> NameLe(s[i].name, s[j].name)
  }

  function InsertByName(x: Contact, s: seq<Contact>): (r: seq<Contact>)
    requires SortedByName(s)
    ensures SortedByName(r)
    ensures multiset(r) == multiset(s) + multiset{x}
  {
    if s == [] then [x]
    else if NameLe(x.name, s[0].name) then
      forall j | 0 < j < |s|
        ensures NameLe(x.name, s[j].name)
      {
        NameLeTransitive(x.name, s[0].name, s[j].name);
      }
      var r := [x] + s;
      assert forall k :: 0 < k < |r| ==> r[k] == s[k - 1];
      r
    else
      var rest := InsertByName(x, s[1..]);
      NameLeTotal(x.name, s[0].name);
      assert s == [s[0]] + s[1..];
      forall k | 0 <= k < |rest|
        ensures NameLe(s[0].name, rest[k].name)
      {
        assert rest[k] in multiset(rest);
        if rest[k] != x {
          assert rest[k] in multiset(s[1..]);
          var m :| 0 <= m < |s[1..]| && s[1..][m] == rest[k];
          assert s[m + 1] == rest[k];
        }
      }
      var r := [s[0]] + rest;
      assert forall k :: 0 < k < |r| ==> r[k] == rest[k - 1];
      r
  }

  function SortByName(s: seq<Contact>): (r: seq<Contact>)
    ensures SortedByName(r)
    ensures multiset(r) == multiset(s)
  {
    if s == [] then []
    else
      assert s == [s[0]] + s[1..];
      InsertByName(s[0], SortByName(s[1..]))
  }

  /** The employee's rows, in table order. */
  function ForEmployee(t: seq<Contact>, empNumber: int): (u: seq<Contact>)
    ensures forall x :: x in u <==> x in t && x.empNumber == empNumber
    ensures forall x :: multiset(u)[x] == if x.empNumber == empNumber then multiset(t)[x] else 0
  {
    if t == [] then []
    else
      assert forall x :: x in t <==> x == t[0] || x in t[1..];
      assert t == [t[0]] + t[1..];
      (if t[0].empNumber == empNumber then [t[0]] else []) + ForEmployee(t[1..], empNumber)
  }

  /**
   * `getEmployeeEmergencyContactList`: a permutation of exactly the
   * employee's rows, ordered by name ascending.
   */
  function ContactList(t: seq<Contact>, empNumber: int): (r: seq<Contact>)
    ensures SortedByName(r)
    ensures multiset(r) == multiset(ForEmployee(t, empNumber))
    ensures forall x :: x in r <==> x in t && x.empNumber == empNumber
  {
    var r := SortByName(ForEmployee(t, empNumber));
    assert forall x :: x in r <==> x in multiset(r);
    r
  }

  // ---------------------------------------------------------------------
  // The DAO
  // ---------------------------------------------------------------------

  /** The contact entity a caller hands to save; save writes its seqNo. */
  class EmpEmergencyContact {
    var empNumber: int
    var seqNo: string
    var name: string

    /** A new entity carries the seqNo "0". */
    constructor (empNumber: int, name: string)
      ensures this.empNumber == empNumber && this.name == name && seqNo == AutoAssign
    {
      this.empNumber := empNumber;
      this.name := name;
      seqNo := AutoAssign;
    }

    /** The entity's current field values. */
    function Draft(): ContactDraft
      reads this
    {
      ContactDraft(empNumber, seqNo, name)
    }
  }

  /** The DAO over the contact table. */
  class EmpEmergencyContactDao {
    var table: seq<Contact>

    predicate Valid()
      reads this
    {
      WellFormed(table)
    }

    constructor ()
      ensures Valid() && table == []
    {
      table := [];
    }

    /**
     * `saveEmployeeEmergencyContact`: resolves the entity's seqNo, writing the
     * auto-assigned number into the entity when it was "0"; rejects a final
     * seqNo outside 1..99 before anything is stored (the entity keeps the
     * written number); otherwise persists the contact and returns it.
     */
    method SaveEmployeeEmergencyContact(entity: EmpEmergencyContact) returns (r: Result<Contact, DaoError>)
      requires Valid()
      modifies this, entity
      ensures Valid()
      ensures entity.empNumber == old(entity.empNumber) && entity.name == old(entity.name)
      ensures entity.seqNo == SeqNoText(old(table), old(entity.Draft()))
      ensures r.Err? <==> !InRange(FinalSeqNo(old(table), old(entity.Draft())))
      ensures r.Err? ==> r.error == InvalidSeqNo && table == old(table)
      ensures r.Ok? ==> r.value == Contact(entity.empNumber, FinalSeqNo(old(table), old(entity.Draft())), entity.name)
      ensures r.Ok? ==> table == Persist(old(table), r.value)
    {
      if entity.seqNo == AutoAssign {
        var next := NextSeqNo(table, entity.empNumber);
        entity.seqNo := Decimal(next);
      }
      var n := IntVal(entity.seqNo);
      if !(n < 100 && n > 0) {
        return Err(InvalidSeqNo);
      }
      var row := Contact(entity.empNumber, n, entity.name);
      PersistWellFormed(table, row);
      table := Persist(table, row);
      r := Ok(row);
    }

    /**
     * `deleteEmployeeEmergencyContacts`: removes the employee's rows whose
     * seqNo is listed and returns how many were removed.
     */
    method DeleteEmployeeEmergencyContacts(empNumber: int, seqNos: seq<int>) returns (count: nat)
      requires Valid()
      modifies this
      ensures Valid()
      ensures table == Remove(old(table), empNumber, seqNos)
      ensures count == |Selection(old(table), empNumber, seqNos)|
    {
      RemovePartition(table, empNumber, seqNos);
      RemoveWellFormed(table, empNumber, seqNos);
      var kept := Remove(table, empNumber, seqNos);
      count := |table| - |kept|;
      table := kept;
    }
  }
}
