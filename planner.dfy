/**
  The appointment list engine of planner.c: a singly linked list of elements
  with head and tail pointers, appended to by addAppointment, kept in start
  order by insertAppointment's scan, emptied by clearList and filtered for
  display by displayList.

  The ghost fields Nodes and Contents name the elements from head to tail and
  the appointments they hold; Valid() ties them to the pointers.
 */
module Planner {
  import opened Numerals
  import opened TimeHelper

  /** An appointment: a start time (`time_t`) and a description. */
  datatype Appointment = Appointment(start: Long, description: string)

  /** Non-decreasing by start. */
  ghost predicate Sorted(s: seq<Appointment>) {
    forall i, j :: 0 <= i < j < |s| ==> s[i].start <= s[j].start
  }

  // ------------------------------------------------ insertAppointment's scan

  /**
    Where insertAppointment's scan stops: the first entry whose start is not
    less than key, or the end of the list.
   */
  function InsertPos(s: seq<Appointment>, key: int): (p: nat)
    ensures p <= |s|
    ensures forall i :: 0 <= i < p ==> s[i].start < key
    ensures p == |s| || s[p].start >= key
  {
    if s == [] || s[0].start >= key then 0 else 1 + InsertPos(s[1..], key)
  }

  /** The scan's stopping point is determined by its two defining properties. */
  lemma InsertPosUnique(s: seq<Appointment>, key: int, p: nat)
    requires p <= |s|
    requires forall i :: 0 <= i < p ==> s[i].start < key
    requires p == |s| || s[p].start >= key
    ensures InsertPos(s, key) == p
  {
  }

  /** The sequence insertAppointment leaves: a placed where the scan stops. */
  function InsertSorted(s: seq<Appointment>, a: Appointment): (r: seq<Appointment>)
    ensures |r| == |s| + 1 && a in r
  {
    var p := InsertPos(s, a.start);
    s[..p] + [a] + s[p..]
  }

  /** Inserting into a sorted list keeps it sorted. */
  lemma InsertPreservesSorted(s: seq<Appointment>, a: Appointment)
    requires Sorted(s)
    ensures Sorted(InsertSorted(s, a))
  {
    var p := InsertPos(s, a.start);
    var r := InsertSorted(s, a);
    assert forall i :: 0 <= i < p ==> r[i] == s[i];
    assert forall i :: p < i < |r| ==> r[i] == s[i - 1];
    forall i, j | 0 <= i < j < |r|
      ensures r[i].start <= r[j].start
    {
      if j == p {
        assert r[i] == s[i];
      } else if i == p {
        assert r[j] == s[j - 1];
      }
    }
  }

  /** Insertion adds exactly the new appointment: old multiset plus one. */
  lemma InsertIsOneMore(s: seq<Appointment>, a: Appointment)
    ensures multiset(InsertSorted(s, a)) == multiset(s) + multiset{a}
    ensures |InsertSorted(s, a)| == |s| + 1
  {
    var p := InsertPos(s, a.start);
    assert s == s[..p] + s[p..];
    assert multiset(s) == multiset(s[..p]) + multiset(s[p..]);
  }

  /**
    The new appointment sits at exactly one position, and deleting it from
    there gives back the old list: old entries keep their relative order.
   */
  lemma InsertKeepsOrder(s: seq<Appointment>, a: Appointment)
    ensures var r := InsertSorted(s, a);
      exists p :: 0 <= p < |r| && r[p] == a && r[..p] + r[p + 1..] == s
  {
    var p := InsertPos(s, a.start);
    var r := InsertSorted(s, a);
    assert r[p] == a;
    assert r[..p] == s[..p];
    assert r[p + 1..] == s[p..];
    assert s[..p] + s[p..] == s;
  }

  /**
    On a sorted list the scan stops before every entry whose start is not less
    than the new one: the new entry lands before the entries with its start,
    and after every entry with a smaller start.
   */
  lemma InsertBeforeEqualStarts(s: seq<Appointment>, a: Appointment)
    requires Sorted(s)
    ensures var p := InsertPos(s, a.start);
      forall i :: 0 <= i < |s| ==> (i < p <==> s[i].start < a.start)
  {
    var p := InsertPos(s, a.start);
    forall i | 0 <= i < |s|
      ensures i < p <==> s[i].start < a.start
    {
      if i >= p {
        assert s[p].start <= s[i].start;
      }
    }
  }

  /** addAppointment keeps the list sorted exactly when the new start is not below the last one. */
  lemma AppendSortedIff(s: seq<Appointment>, a: Appointment)
    requires Sorted(s)
    ensures Sorted(s + [a]) <==> (s == [] || s[|s| - 1].start <= a.start)
  {
    if s != [] && s[|s| - 1].start <= a.start {
      var r := s + [a];
      forall i, j | 0 <= i < j < |r|
        ensures r[i].start <= r[j].start
      {
        if j == |s| {
          assert r[i] == s[i];
        }
      }
    } else if s != [] {
      var r := s + [a];
      assert r[|s| - 1] == s[|s| - 1] && r[|s|] == a;
    }
  }

  // ----------------------------------------------------------- displayList

  /** displayList's test: all three arguments zero, or the local date is day.month.year. */
  predicate Selected(a: Appointment, day: int, month: int, year: int, localtime: Long -> Tm) {
    if day == 0 && month == 0 && year == 0 then true
    else
      var tm := localtime(a.start);
      tm.mday == day && tm.mon + 1 == month && tm.year + 1900 == year
  }

  /** The appointments displayList prints, in list order. */
  function Displayed(s: seq<Appointment>, day: int, month: int, year: int, localtime: Long -> Tm): (r: seq<Appointment>)
    ensures |r| <= |s|
    ensures forall i :: 0 <= i < |r| ==> Selected(r[i], day, month, year, localtime)
  {
    if s == [] then []
    else
      var rest := Displayed(s[..|s| - 1], day, month, year, localtime);
      if Selected(s[|s| - 1], day, month, year, localtime) then rest + [s[|s| - 1]] else rest
  }

  /** With (0, 0, 0) every entry is displayed, in list order. */
  lemma {:induction false} DisplayAll(s: seq<Appointment>, localtime: Long -> Tm)
    ensures Displayed(s, 0, 0, 0, localtime) == s
  {
    if s != [] {
      DisplayAll(s[..|s| - 1], localtime);
      assert s[..|s| - 1] + [s[|s| - 1]] == s;
    }
  }

  /** An entry is displayed exactly when it is in the list and passes the date test. */
  lemma {:induction false} DisplayedMembers(s: seq<Appointment>, day: int, month: int, year: int, localtime: Long -> Tm)
    ensures forall x :: (x in Displayed(s, day, month, year, localtime)
      <==> x in s && Selected(x, day, month, year, localtime))
  {
    if s != [] {
      DisplayedMembers(s[..|s| - 1], day, month, year, localtime);
      assert s == s[..|s| - 1] + [s[|s| - 1]];
    }
  }

  /** Displaying a list in two parts displays the parts one after the other: order is preserved. */
  lemma {:induction false} DisplayedConcat(s: seq<Appointment>, t: seq<Appointment>, day: int, month: int, year: int, localtime: Long -> Tm)
    ensures Displayed(s + t, day, month, year, localtime)
         == Displayed(s, day, month, year, localtime) + Displayed(t, day, month, year, localtime)
    decreases |t|
  {
    if t == [] {
      assert s + t == s;
    } else {
      var u := s + t;
      assert u[..|u| - 1] == s + t[..|t| - 1];
      assert u[|u| - 1] == t[|t| - 1];
      DisplayedConcat(s, t[..|t| - 1], day, month, year, localtime);
    }
  }

  // ------------------------------------------------------------- the list

  /** Element: one appointment and the link to the next element. */
  class Element {
    const appointment: Appointment
    var next: Element?

    constructor (appointment: Appointment)
      ensures this.appointment == appointment && next == null
    {
      this.appointment := appointment;
      next := null;
    }
  }

  /** Each element links to the one after it. */
  ghost predicate Linked(nodes: seq<Element>)
    reads nodes
  {
    forall i :: 0 <= i < |nodes| - 1 ==> nodes[i].next == nodes[i + 1]
  }

  ghost predicate Distinct(nodes: seq<Element>) {
    forall i, j :: 0 <= i < j < |nodes| ==> nodes[i] != nodes[j]
  }

  /** The elements hold the appointments, in the same order. */
  ghost predicate Holds(nodes: seq<Element>, contents: seq<Appointment>) {
    |nodes| == |contents| && forall i :: 0 <= i < |nodes| ==> nodes[i].appointment == contents[i]
  }

  /**
    A chain with element spliced in at position k is linked when the old links
    survive except the one into position k, which now leads to element, and
    element leads on to the old k-th element (or ends the chain).
   */
  lemma LinkedInsert(before: seq<Element>, k: nat, element: Element)
    requires k <= |before|
    requires forall i :: 0 <= i < |before| - 1 && i != k - 1 ==> before[i].next == before[i + 1]
    requires 0 < k ==> before[k - 1].next == element
    requires element.next == if k < |before| then before[k] else null
    ensures Linked(before[..k] + [element] + before[k..])
  {
    var after := before[..k] + [element] + before[k..];
    forall i | 0 <= i < |after| - 1
      ensures after[i].next == after[i + 1]
    {
      if i < k - 1 {
        assert after[i] == before[i] && after[i + 1] == before[i + 1];
      } else if i == k - 1 {
        assert after[i] == before[k - 1] && after[i + 1] == element;
      } else if i == k {
        assert after[i] == element && after[i + 1] == before[k];
      } else {
        assert after[i] == before[i - 1] && after[i + 1] == before[i];
      }
    }
  }

  lemma DistinctInsert(before: seq<Element>, k: nat, element: Element)
    requires k <= |before| && Distinct(before)
    requires forall i :: 0 <= i < |before| ==> before[i] != element
    ensures Distinct(before[..k] + [element] + before[k..])
  {
    var after := before[..k] + [element] + before[k..];
    forall i, j | 0 <= i < j < |after|
      ensures after[i] != after[j]
    {
      var i' := if i < k then i else i - 1;
      var j' := if j <= k then j else j - 1;
      assert i != k ==> after[i] == before[i'];
      assert j != k ==> after[j] == before[j'];
    }
  }

  lemma HoldsInsert(nodes: seq<Element>, contents: seq<Appointment>, k: nat, element: Element)
    requires k <= |nodes| && Holds(nodes, contents)
    ensures Holds(nodes[..k] + [element] + nodes[k..], contents[..k] + [element.appointment] + contents[k..])
  {
    var after := nodes[..k] + [element] + nodes[k..];
    var held := contents[..k] + [element.appointment] + contents[k..];
    forall i | 0 <= i < |after|
      ensures after[i].appointment == held[i]
    {
      if i < k {
        assert after[i] == nodes[i] && held[i] == contents[i];
      } else if i > k {
        assert after[i] == nodes[i - 1] && held[i] == contents[i - 1];
      }
    }
  }

  /**
    The chain invariant: the elements hold the appointments in order, each
    links to the next and none repeats; head is the first element and tail the
    last, which ends the chain; both are null for an empty chain.
   */
  ghost predicate Chain(nodes: seq<Element>, contents: seq<Appointment>, head: Element?, tail: Element?)
    reads nodes
  {
    && Holds(nodes, contents)
    && Linked(nodes)
    && Distinct(nodes)
    && (if nodes == [] then head == null && tail == null
        else head == nodes[0] && tail == nodes[|nodes| - 1] && tail.next == null)
  }

  /**
    Splicing a new element in at position k, relinked as LinkedInsert
    describes, with head and tail moved to it when it lands at an end, keeps
    the chain invariant.
   */
  lemma ChainInsert(before: seq<Element>, contents: seq<Appointment>, k: nat, element: Element, head: Element, tail: Element)
    requires k <= |before| && Distinct(before) && Holds(before, contents)
    requires forall i :: 0 <= i < |before| ==> before[i] != element
    requires forall i :: 0 <= i < |before| - 1 && i != k - 1 ==> before[i].next == before[i + 1]
    requires 0 < k ==> before[k - 1].next == element
    requires element.next == if k < |before| then before[k] else null
    requires head == if k == 0 then element else before[0]
    requires tail == if k == |before| then element else before[|before| - 1]
    requires tail.next == null
    ensures Chain(before[..k] + [element] + before[k..], contents[..k] + [element.appointment] + contents[k..], head, tail)
  {
    LinkedInsert(before, k, element);
    DistinctInsert(before, k, element);
    HoldsInsert(before, contents, k, element);
  }

  /** The spliced chain lies in the old footprint plus the new element. */
  lemma WithinInsert(before: seq<Element>, k: nat, element: Element, repr: set<object>)
    requires k <= |before|
    requires forall i :: 0 <= i < |before| ==> before[i] in repr
    ensures forall i :: 0 <= i < |before| + 1 ==> (before[..k] + [element] + before[k..])[i] in repr + {element}
  {
  }

  /** Splicing at either end is prepending or appending. */
  lemma SpliceAtEnds<T>(s: seq<T>, x: T)
    ensures s[..0] + [x] + s[0..] == [x] + s
    ensures s[..|s|] + [x] + s[|s|..] == s + [x]
  {
  }

  /** List: the head and tail of a singly linked chain of elements. */
  class List {
    var head: Element?
    var tail: Element?
    ghost var Nodes: seq<Element>
    ghost var Contents: seq<Appointment>
    ghost var Repr: set<object>

    /**
      The elements from head to tail are Nodes, all distinct, each linked to
      the next; they hold Contents in order; head is null exactly when the list
      is empty; tail is the last element and its next is null.
     */
    ghost predicate Valid()
      reads this, Repr
    {
      && this in Repr
      && (forall i :: 0 <= i < |Nodes| ==> Nodes[i] in Repr)
      && Chain(Nodes, Contents, head, tail)
    }

    /** newList: an empty list. */
    constructor ()
      ensures Valid() && fresh(Repr)
      ensures Contents == [] && head == null && tail == null
    {
      head, tail := null, null;
      Nodes, Contents := [], [];
      Repr := {this};
    }

    /** addAppointment: append at the tail. */
    method AddAppointment(a: Appointment)
      requires Valid()
      modifies Repr
      ensures Valid() && fresh(Repr - old(Repr))
      ensures Contents == old(Contents) + [a]
      ensures head != null && tail != null && tail.appointment == a && tail.next == null
    {
      ghost var before := Nodes;
      var element := new Element(a);
      if head == null {
        head, tail := element, element;
      } else {
        tail.next := element;
        tail := element;
      }
      assert forall i :: 0 <= i < |before| - 1 ==> before[i].next == before[i + 1];
      ChainInsert(before, Contents, |before|, element, head, tail);
      WithinInsert(before, |before|, element, Repr);
      SpliceAtEnds(Contents, a);
      Nodes := before[..|before|] + [element] + before[|before|..];
      Contents := Contents + [a];
      Repr := Repr + {element};
    }

    /** insertAppointment: link a in where the scan for the first start not below a's stops. */
    method InsertAppointment(a: Appointment)
      requires Valid()
      modifies Repr
      ensures Valid() && fresh(Repr - old(Repr))
      ensures Contents == InsertSorted(old(Contents), a)
      ensures head != null && tail != null && tail.next == null
    {
      var element := new Element(a);
      if head == null {
        SpliceAtEnds(Contents, a);
        LinkOnly(element);
        return;
      }
      var previous, current, k := Scan(a.start);
      if previous == null {
        SpliceAtEnds(Contents, a);
        LinkFirst(element);
      } else {
        LinkAfter(element, previous, current, k);
      }
    }

    /**
      insertAppointment's scan: walk from the head past every element whose
      start is below key; previous is the last element passed (null when none
      is), current the element the scan stopped at (null at the end), and k
      the number of elements passed.
     */
    method Scan(key: Long) returns (previous: Element?, current: Element?, ghost k: nat)
      requires Valid()
      ensures k == InsertPos(Contents, key)
      ensures current == (if k < |Nodes| then Nodes[k] else null)
      ensures previous == (if k == 0 then null else Nodes[k - 1])
    {
      current := head;
      previous := null;
      k := 0;
      while current != null && current.appointment.start < key
        invariant 0 <= k <= |Nodes|
        invariant current == (if k < |Nodes| then Nodes[k] else null)
        invariant previous == (if k == 0 then null else Nodes[k - 1])
        invariant forall i :: 0 <= i < k ==> Contents[i].start < key
        decreases |Nodes| - k
      {
        previous := current;
        current := current.next;
        k := k + 1;
      }
      InsertPosUnique(Contents, key, k);
    }

    /** insertAppointment on an empty list: the new element becomes head and tail. */
    method LinkOnly(element: Element)
      requires Valid() && head == null && element !in Repr && element.next == null
      modifies this
      ensures Valid() && Repr == old(Repr) + {element}
      ensures Contents == [element.appointment]
      ensures head != null && tail != null && tail.next == null
    {
      head, tail := element, element;
      Nodes, Contents := [element], [element.appointment];
      Repr := Repr + {element};
    }

    /** insertAppointment's first case: the new element becomes the head. */
    method LinkFirst(element: Element)
      requires Valid() && Nodes != [] && element !in Repr
      modifies this, element
      ensures Valid() && Repr == old(Repr) + {element}
      ensures head != null && tail != null && tail.next == null
      ensures Contents == old(Contents[..0]) + [element.appointment] + old(Contents[0..])
    {
      ghost var before := Nodes;
      element.next := head;
      head := element;
      assert forall i :: 0 <= i < |before| - 1 ==> before[i].next == before[i + 1];
      ChainInsert(before, Contents, 0, element, head, tail);
      WithinInsert(before, 0, element, Repr);
      Nodes := before[..0] + [element] + before[0..];
      Contents := Contents[..0] + [element.appointment] + Contents[0..];
      Repr := Repr + {element};
    }

    /**
      insertAppointment's second case: the new element goes between previous,
      the k-th element counting from one, and current, which follows it; it
      becomes the tail when current is null.
     */
    method LinkAfter(element: Element, previous: Element, current: Element?, ghost k: nat)
      requires Valid() && element !in Repr
      requires 0 < k <= |Nodes| && previous == Nodes[k - 1]
      requires current == if k < |Nodes| then Nodes[k] else null
      modifies this, previous, element
      ensures Valid() && Repr == old(Repr) + {element}
      ensures head != null && tail != null && tail.next == null
      ensures Contents == old(Contents[..k]) + [element.appointment] + old(Contents[k..])
    {
      ghost var before := Nodes;
      assert current != null ==> tail != previous;
      element.next := current;
      previous.next := element;
      if current == null {
        tail := element;
      }
      assert forall i :: 0 <= i < |before| - 1 && i != k - 1 ==> before[i].next == before[i + 1];
      ChainInsert(before, Contents, k, element, head, tail);
      WithinInsert(before, k, element, Repr);
      Nodes := before[..k] + [element] + before[k..];
      Contents := Contents[..k] + [element.appointment] + Contents[k..];
      Repr := Repr + {element};
    }

    /** clearList: the list becomes empty (releasing the elements is not modelled). */
    method ClearList()
      requires Valid()
      modifies this
      ensures Valid()
      ensures Contents == [] && head == null && tail == null
    {
      head, tail := null, null;
      Nodes, Contents := [], [];
      Repr := {this};
    }

    /**
      displayList: the appointments it prints, in list order; `localtime` is
      the time-zone-dependent conversion from a start to a calendar date.
     */
    method DisplayList(day: int, month: int, year: int, localtime: Long -> Tm) returns (shown: seq<Appointment>)
      requires Valid()
      ensures shown == Displayed(Contents, day, month, year, localtime)
    {
      shown := [];
      var current := head;
      ghost var k := 0;
      while current != null
        invariant 0 <= k <= |Nodes|
        invariant current == (if k < |Nodes| then Nodes[k] else null)
        invariant shown == Displayed(Contents[..k], day, month, year, localtime)
        decreases |Nodes| - k
      {
        var appointment := current.appointment;
        var selected := false;
        if day == 0 && month == 0 && year == 0 {
          selected := true;
        } else {
          var start := localtime(appointment.start);
          if start.mday == day && start.mon + 1 == month && start.year + 1900 == year {
            selected := true;
          }
        }
        if selected {
          shown := shown + [appointment];
        }
        assert Contents[..k + 1][..k] == Contents[..k];
        current := current.next;
        k := k + 1;
      }
      assert Contents[..k] == Contents;
    }
  }
}
