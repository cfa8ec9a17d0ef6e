/**
  The student records of the screen and the pure transforms that reconcile the
  in-memory roster with the outcome of each server call: append after a create,
  a `map` that replaces matching ids after an update, and a `filter` that drops
  matching ids after a delete.
 */
module Roster {
  import opened Wrappers

  /** A record as the server returns it. Only `id` is compared; the other fields are free text. */
  datatype Student = Student(id: int, name: string, age: string, grade: string)

  /** The form's draft (`newStudent`). It carries an id only when it was copied from an existing record. */
  datatype Draft = Draft(id: Option<int>, name: string, age: string, grade: string)

  /** The draft the form starts from when a new student is being created. */
  const EmptyDraft: Draft := Draft(None, "", "", "")

  /** The draft obtained by copying an existing record into the form. */
  function DraftOf(s: Student): Draft {
    Draft(Some(s.id), s.name, s.age, s.grade)
  }

  /** The record a draft that carries an id stands for. */
  function StudentOf(d: Draft): Student
    requires d.id.Some?
  {
    Student(d.id.value, d.name, d.age, d.grade)
  }

  /**
    Copying a record into the form loses nothing: the drafts that carry an id
    are exactly the copies of records, one per record.
   */
  lemma DraftRoundTrip(s: Student, d: Draft)
    ensures StudentOf(DraftOf(s)) == s
    ensures d.id.Some? ==> DraftOf(StudentOf(d)) == d
    ensures DraftOf(s) == d <==> d.id.Some? && StudentOf(d) == s
  {
  }

  predicate HasId(roster: seq<Student>, id: int) {
    exists i :: 0 <= i < |roster| && roster[i].id == id
  }

  /** No two records of the roster share an id. */
  predicate UniqueIds(roster: seq<Student>) {
    forall i, j :: 0 <= i < j < |roster| ==> roster[i].id != roster[j].id
  }

  /** How many records of the roster carry `id`. */
  function CountId(roster: seq<Student>, id: int): (n: nat)
    ensures n <= |roster|
    ensures n == 0 <==> !HasId(roster, id)
  {
    if roster == [] then 0
    else
      var init, last := roster[..|roster| - 1], roster[|roster| - 1];
      assert forall i :: 0 <= i < |init| ==> init[i] == roster[i];
      assert HasId(init, id) ==> HasId(roster, id);
      assert HasId(roster, id) && !HasId(init, id) ==> last.id == id;
      CountId(init, id) + (if last.id == id then 1 else 0)
  }

  /** The roster after a successful create: the returned record goes at the end, with no de-duplication. */
  function Append(roster: seq<Student>, created: Student): (r: seq<Student>)
    ensures |r| == |roster| + 1
    ensures forall i :: 0 <= i < |roster| ==> r[i] == roster[i]
    ensures r[|roster|] == created
  {
    roster + [created]
  }

  /**
    The roster after a successful update: every record whose id is `target`
    (the id of the record being edited) becomes `updated`; every other record
    stays where it is.
   */
  function Replace(roster: seq<Student>, target: int, updated: Student): (r: seq<Student>)
    ensures |r| == |roster|
    ensures forall i :: 0 <= i < |roster| ==>
              r[i] == (if roster[i].id == target then updated else roster[i])
  {
    if roster == [] then []
    else
      var last := roster[|roster| - 1];
      Replace(roster[..|roster| - 1], target, updated) + [if last.id == target then updated else last]
  }

  /** The roster after a successful delete: the records whose id is not `id`, in their original order. */
  function Remove(roster: seq<Student>, id: int): (r: seq<Student>)
    ensures |r| == |roster| - CountId(roster, id)
    ensures forall k :: 0 <= k < |r| ==> r[k].id != id
    ensures forall s :: s in r <==> s in roster && s.id != id
  {
    if roster == [] then []
    else
      var init, last := roster[..|roster| - 1], roster[|roster| - 1];
      assert roster == init + [last];
      Remove(init, id) + (if last.id != id then [last] else [])
  }

  /** The positions of the roster that a delete of `id` keeps, in increasing order. */
  function KeptIndices(roster: seq<Student>, id: int): (k: seq<nat>)
    ensures forall a, b :: 0 <= a < b < |k| ==> k[a] < k[b]
    ensures forall a :: 0 <= a < |k| ==> k[a] < |roster| && roster[k[a]].id != id
    ensures forall i :: 0 <= i < |roster| && roster[i].id != id ==> i in k
  {
    if roster == [] then []
    else
      var n := |roster| - 1;
      KeptIndices(roster[..n], id) + (if roster[n].id != id then [n] else [])
  }

  // ---------------------------------------------------------------------------
  // Create

  /** A create raises the count of the created record's id by one and leaves every other count alone. */
  lemma AppendCount(roster: seq<Student>, created: Student, id: int)
    ensures CountId(Append(roster, created), id) == CountId(roster, id) + (if created.id == id then 1 else 0)
  {
    assert Append(roster, created)[..|roster|] == roster;
  }

  /** Ids stay unique after a create exactly when the server returned an id the roster did not hold. */
  lemma AppendUniqueIff(roster: seq<Student>, created: Student)
    ensures UniqueIds(Append(roster, created)) <==> UniqueIds(roster) && !HasId(roster, created.id)
  {
    var r := Append(roster, created);
    if UniqueIds(r) {
      forall i, j | 0 <= i < j < |roster| ensures roster[i].id != roster[j].id {
        assert r[i] == roster[i] && r[j] == roster[j];
      }
    }
  }

  /** Two creates append two records; when the server hands out fresh, distinct ids, ids stay unique. */
  lemma AppendTwice(roster: seq<Student>, first: Student, second: Student)
    requires UniqueIds(roster) && !HasId(roster, first.id) && !HasId(roster, second.id)
    requires first.id != second.id
    ensures var r := Append(Append(roster, first), second);
            |r| == |roster| + 2 && r[|roster|] == first && r[|roster| + 1] == second && UniqueIds(r)
  {
    AppendUniqueIff(roster, first);
    var once := Append(roster, first);
    forall i | 0 <= i < |once| ensures once[i].id != second.id {
      assert i < |roster| ==> once[i] == roster[i];
    }
    AppendUniqueIff(once, second);
  }

  // ---------------------------------------------------------------------------
  // Update

  /** An update whose target id is absent leaves the roster as it was. */
  lemma ReplaceAbsent(roster: seq<Student>, target: int, updated: Student)
    requires !HasId(roster, target)
    ensures Replace(roster, target, updated) == roster
  {
    var r := Replace(roster, target, updated);
    forall i | 0 <= i < |roster| ensures r[i] == roster[i] {
      assert roster[i].id != target;
    }
  }

  /**
    After an update the target id is held by as many records as before when the
    server echoed that id, and by none when it returned another one: the match
    uses the edited record's id, not the response's.
   */
  lemma {:induction false} ReplaceCount(roster: seq<Student>, target: int, updated: Student)
    ensures CountId(Replace(roster, target, updated), target)
            == (if updated.id == target then CountId(roster, target) else 0)
  {
    if roster != [] {
      var init := roster[..|roster| - 1];
      ReplaceCount(init, target, updated);
      var r := Replace(roster, target, updated);
      assert r[..|r| - 1] == Replace(init, target, updated);
    }
  }

  /** In a roster with unique ids, an id occurs once if present and not at all otherwise. */
  lemma {:induction false} UniqueCount(roster: seq<Student>, id: int)
    requires UniqueIds(roster)
    ensures CountId(roster, id) == (if HasId(roster, id) then 1 else 0)
  {
    if roster != [] {
      var init, last := roster[..|roster| - 1], roster[|roster| - 1];
      assert UniqueIds(init) by {
        forall i, j | 0 <= i < j < |init| ensures init[i].id != init[j].id {
          assert init[i] == roster[i] && init[j] == roster[j];
        }
      }
      UniqueCount(init, id);
      forall i | 0 <= i < |init| ensures init[i].id != last.id {
        assert init[i] == roster[i];
      }
    }
  }

  /**
    An update of a record present in a roster with unique ids, answered with a
    record carrying the same id: ids stay unique, exactly one record holds that
    id, and it is the returned record.
   */
  lemma UpdatePresent(roster: seq<Student>, target: int, updated: Student)
    requires UniqueIds(roster) && HasId(roster, target) && updated.id == target
    ensures var r := Replace(roster, target, updated);
            UniqueIds(r) && CountId(r, target) == 1 &&
            forall i :: 0 <= i < |r| && r[i].id == target ==> r[i] == updated
  {
    var r := Replace(roster, target, updated);
    forall i, j | 0 <= i < j < |r| ensures r[i].id != r[j].id {
      if roster[i].id != target && roster[j].id != target {
        assert r[i] == roster[i] && r[j] == roster[j];
      }
    }
    ReplaceCount(roster, target, updated);
    UniqueCount(roster, target);
  }

  // ---------------------------------------------------------------------------
  // Delete

  /** A delete keeps exactly the positions `KeptIndices` lists, in their original order. */
  lemma {:induction false} RemoveSelectsInOrder(roster: seq<Student>, id: int)
    ensures var r, k := Remove(roster, id), KeptIndices(roster, id);
            |r| == |k| && forall a :: 0 <= a < |k| ==> r[a] == roster[k[a]]
  {
    if roster != [] {
      var n := |roster| - 1;
      var init := roster[..n];
      RemoveSelectsInOrder(init, id);
      var r, k := Remove(roster, id), KeptIndices(roster, id);
      var ri, ki := Remove(init, id), KeptIndices(init, id);
      assert r == ri + (if roster[n].id != id then [roster[n]] else []);
      assert k == ki + (if roster[n].id != id then [n] else []);
      forall a | 0 <= a < |k| ensures r[a] == roster[k[a]] {
        if a < |ki| {
          assert r[a] == ri[a] == init[ki[a]];
        }
      }
    }
  }

  /** Deleting an id that no record holds leaves the roster unchanged. */
  lemma {:induction false} RemoveAbsent(roster: seq<Student>, id: int)
    requires !HasId(roster, id)
    ensures Remove(roster, id) == roster
  {
    if roster != [] {
      var init := roster[..|roster| - 1];
      forall i | 0 <= i < |init| ensures init[i].id != id {
        assert init[i] == roster[i];
      }
      RemoveAbsent(init, id);
      assert roster[|roster| - 1].id != id;
      assert roster == init + [roster[|roster| - 1]];
    }
  }

  /**
    A delete keeps ids unique; when the roster's ids are unique and the id is
    present, exactly one record goes.
   */
  lemma RemoveUnique(roster: seq<Student>, id: int)
    requires UniqueIds(roster)
    ensures UniqueIds(Remove(roster, id))
    ensures HasId(roster, id) ==> |Remove(roster, id)| == |roster| - 1
  {
    var r, k := Remove(roster, id), KeptIndices(roster, id);
    RemoveSelectsInOrder(roster, id);
    forall a, b | 0 <= a < b < |r| ensures r[a].id != r[b].id {
      assert r[a] == roster[k[a]] && r[b] == roster[k[b]] && k[a] < k[b];
    }
    UniqueCount(roster, id);
  }
}
