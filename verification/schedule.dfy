/**
 The roster of the studio screen: six fixed class times, each holding the
 ordered list of students booked into it (insertion order is display
 order), and the three ways the screen changes a list — append one
 student, drop every student with a given name, empty the list.
 */
module Schedule {

  /** The class times, keyed `student6H` … `student20H` in the screen's state. */
  datatype Slot = H6 | H7 | H8 | H18 | H19 | H20

  /** The four membership plans offered by the plan buttons. */
  datatype Plan = WellHub | TotalPass | Simples | Vip

  /** One booking: the name exactly as typed, and the chosen plan. */
  datatype Student = Student(name: string, option: Plan)

  /** Most students a class time accepts. */
  const Capacity: nat := 17

  /** Every class time is a key of `m`. The six constructors are listed so
      that the verifier case-splits on the class time; `EveryKeyPresent`
      shows the listing restricts nothing. */
  predicate HasAllSlots(m: map<Slot, seq<Student>>) {
    forall s: Slot :: (s.H6? || s.H7? || s.H8? || s.H18? || s.H19? || s.H20?) ==> s in m
  }

  lemma EveryKeyPresent(m: map<Slot, seq<Student>>)
    ensures HasAllSlots(m) <==> forall s: Slot :: s in m
  {
  }

  /** The roster has every class time as a key: the screen starts with all
      six and only ever rewrites the list under a key. */
  type Roster = m: map<Slot, seq<Student>> | HasAllSlots(m)
    witness map[H6 := [], H7 := [], H8 := [], H18 := [], H19 := [], H20 := []]

  /** The roster the screen starts with. */
  function EmptyRoster(): (r: Roster)
    ensures forall s :: r[s] == []
  {
    map[H6 := [], H7 := [], H8 := [], H18 := [], H19 := [], H20 := []]
  }

  /** Every class time is within capacity. */
  predicate WithinCapacity(r: Roster) {
    forall s :: |r[s]| <= Capacity
  }

  /** Every class time but `slot` holds the same list in `r` and `r'`. */
  predicate OthersUnchanged(r: Roster, r': Roster, slot: Slot) {
    forall s :: s != slot ==> r'[s] == r[s]
  }

  /** Books `st` at the end of `slot`: the earlier bookings keep their
      places and no other class time changes. */
  function Append(r: Roster, slot: Slot, st: Student): (r': Roster)
    ensures |r'[slot]| == |r[slot]| + 1
    ensures r'[slot][..|r[slot]|] == r[slot]
    ensures r'[slot][|r[slot]|] == st
    ensures OthersUnchanged(r, r', slot)
  {
    r[slot := r[slot] + [st]]
  }

  /** Number of bookings in `xs` under the name `n`. */
  function Occurrences(xs: seq<Student>, n: string): nat
  {
    if xs == [] then 0
    else (if xs[0].name == n then 1 else 0) + Occurrences(xs[1..], n)
  }

  /** `xs.filter(student => student.name !== n)`: every booking under the
      name `n` goes, every other booking stays. */
  function RemoveNamed(xs: seq<Student>, n: string): (ys: seq<Student>)
    ensures forall x :: x in ys <==> x in xs && x.name != n
    ensures |ys| + Occurrences(xs, n) == |xs|
  {
    if xs == [] then []
    else if xs[0].name != n then [xs[0]] + RemoveNamed(xs[1..], n)
    else RemoveNamed(xs[1..], n)
  }

  /** Each booking not under `n` survives as many times as it was booked;
      each booking under `n` is gone. */
  lemma {:induction false} RemoveNamedMultiplicity(xs: seq<Student>, n: string)
    ensures forall x :: multiset(RemoveNamed(xs, n))[x] == if x.name == n then 0 else multiset(xs)[x]
  {
    if xs != [] {
      RemoveNamedMultiplicity(xs[1..], n);
      assert xs == [xs[0]] + xs[1..];
      assert multiset(xs) == multiset{xs[0]} + multiset(xs[1..]);
    }
  }

  /** Filtering a concatenation filters each part in place, so the bookings
      that survive keep their relative order. */
  lemma {:induction false} RemoveNamedAppend(a: seq<Student>, b: seq<Student>, n: string)
    ensures RemoveNamed(a + b, n) == RemoveNamed(a, n) + RemoveNamed(b, n)
  {
    if a == [] {
      assert a + b == b;
    } else {
      assert (a + b)[1..] == a[1..] + b;
      RemoveNamedAppend(a[1..], b, n);
    }
  }

  /** Removing a name is a no-op exactly when nobody in the list has it. */
  lemma {:induction false} RemoveNamedNoMatch(xs: seq<Student>, n: string)
    ensures RemoveNamed(xs, n) == xs <==> forall i :: 0 <= i < |xs| ==> xs[i].name != n
  {
    if xs != [] {
      RemoveNamedNoMatch(xs[1..], n);
      if RemoveNamed(xs, n) == xs {
        assert xs[0] in RemoveNamed(xs, n);
        assert xs[0].name != n;
        assert RemoveNamed(xs[1..], n) == xs[1..];
        forall i | 0 <= i < |xs|
          ensures xs[i].name != n
        {
          if i > 0 {
            assert xs[i] == xs[1..][i - 1];
          }
        }
      } else {
        assert xs == [xs[0]] + xs[1..];
      }
    }
  }

  /** Removing the same name twice is the same as removing it once. */
  lemma RemoveNamedIdempotent(xs: seq<Student>, n: string)
    ensures RemoveNamed(RemoveNamed(xs, n), n) == RemoveNamed(xs, n)
  {
  }

  /** `removeStudent`: rewrites the list of `slot` without the name `n`. */
  function Remove(r: Roster, slot: Slot, n: string): (r': Roster)
    ensures r'[slot] == RemoveNamed(r[slot], n)
    ensures forall x :: x in r'[slot] <==> x in r[slot] && x.name != n
    ensures |r'[slot]| + Occurrences(r[slot], n) == |r[slot]|
    ensures OthersUnchanged(r, r', slot)
  {
    r[slot := RemoveNamed(r[slot], n)]
  }

  /** `clearAllStudents` after confirmation: empties `slot`, nothing else. */
  function Clear(r: Roster, slot: Slot): (r': Roster)
    ensures r'[slot] == []
    ensures OthersUnchanged(r, r', slot)
  {
    r[slot := []]
  }

  /** Clearing twice is clearing once. */
  lemma ClearIdempotent(r: Roster, slot: Slot)
    ensures Clear(Clear(r, slot), slot) == Clear(r, slot)
  {
  }
}
