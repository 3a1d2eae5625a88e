/**
 * The initial roster of the Index page: nine participants, sorted by last name,
 * where the last name is the last space-separated token of the name.
 */
module Roster {
  import opened Wrappers
  import opened JsString
  import opened Participants

  /** `xs.pop()`: the last element, `undefined` for an empty array. */
  function Pop(xs: seq<string>): Option<string> {
    if xs == [] then None else Some(xs[|xs| - 1])
  }

  /** `x || ''`: both `undefined` and the empty string give the empty string. */
  function OrEmpty(x: Option<string>): string {
    match x
    case Some(s) => s
    case None => ""
  }

  /** `name.split(' ').pop() || ''`: what follows the last space, or the whole name when it has none. */
  function SortKey(name: string): string {
    OrEmpty(Pop(Split(name, ' ')))
  }

  lemma SortKeyIsLastName(name: string)
    ensures IsLastPiece(name, ' ', SortKey(name))
  {
    SplitLast(name, ' ');
  }

  /** The comparator: `lastNameA.localeCompare(lastNameB) <= 0`, with code-point order for collation. */
  predicate KeyLe(a: Participant, b: Participant) {
    LexLe(SortKey(a.name), SortKey(b.name))
  }

  predicate Sorted(ps: seq<Participant>) {
    forall i :: 0 < i < |ps| ==> KeyLe(ps[i - 1], ps[i])
  }

  /** A list headed by `x` is ordered when its tail is and `x` sorts before the tail's head. */
  lemma SortedCons(x: Participant, t: seq<Participant>)
    requires Sorted(t) && (t == [] || KeyLe(x, t[0]))
    ensures Sorted([x] + t)
  {
    var r := [x] + t;
    forall i | 0 < i < |r| ensures KeyLe(r[i - 1], r[i]) {
      if i > 1 { assert r[i - 1] == t[i - 2] && r[i] == t[i - 1]; }
    }
  }

  /** Inserts `x` before the first element it does not sort after. */
  function Insert(x: Participant, s: seq<Participant>): (r: seq<Participant>)
    ensures |r| == |s| + 1
    ensures r[0] == x || (s != [] && r[0] == s[0])
    decreases |s|
  {
    if s == [] || KeyLe(x, s[0]) then [x] + s else [s[0]] + Insert(x, s[1..])
  }

  /** Inserting into an ordered list keeps it ordered. */
  lemma {:induction false} InsertSorted(x: Participant, s: seq<Participant>)
    requires Sorted(s)
    ensures Sorted(Insert(x, s))
    decreases |s|
  {
    if s == [] || KeyLe(x, s[0]) {
      SortedCons(x, s);
    } else {
      assert Sorted(s[1..]) by {
        forall i | 0 < i < |s[1..]| ensures KeyLe(s[1..][i - 1], s[1..][i]) {
          assert s[1..][i - 1] == s[i] && s[1..][i] == s[i + 1];
        }
      }
      InsertSorted(x, s[1..]);
      LexLeTotal(SortKey(x.name), SortKey(s[0].name));
      SortedCons(s[0], Insert(x, s[1..]));
    }
  }

  /**
   * `Array.prototype.sort` with the last-name comparator, as a stable insertion
   * sort (each element goes before the equal keys that followed it).
   */
  function SortByKey(ps: seq<Participant>): (r: seq<Participant>)
    ensures |r| == |ps|
    decreases |ps|
  {
    if ps == [] then [] else Insert(ps[0], SortByKey(ps[1..]))
  }

  /** The sort's result is ordered by last name. */
  lemma {:induction false} SortSorted(ps: seq<Participant>)
    ensures Sorted(SortByKey(ps))
    decreases |ps|
  {
    if ps != [] {
      SortSorted(ps[1..]);
      InsertSorted(ps[0], SortByKey(ps[1..]));
    }
  }

  /** Insertion adds exactly `x`. */
  lemma {:induction false} InsertPermutes(x: Participant, s: seq<Participant>)
    ensures multiset(Insert(x, s)) == multiset(s) + multiset{x}
    decreases |s|
  {
    if s != [] && !KeyLe(x, s[0]) {
      InsertPermutes(x, s[1..]);
      assert s == [s[0]] + s[1..];
    }
  }

  /** The sort only reorders: the result is a permutation of the input. */
  lemma {:induction false} SortPermutes(ps: seq<Participant>)
    ensures multiset(SortByKey(ps)) == multiset(ps)
    decreases |ps|
  {
    if ps != [] {
      var x, tail := ps[0], ps[1..];
      SortPermutes(tail);
      InsertPermutes(x, SortByKey(tail));
      assert ps == [x] + tail;
    }
  }

  /** Adjacent order implies order between any two positions. */
  lemma {:induction false} SortedPairwise(ps: seq<Participant>, i: int, j: int)
    requires Sorted(ps) && 0 <= i <= j < |ps|
    ensures KeyLe(ps[i], ps[j])
    decreases j - i
  {
    if i == j {
      LexLeTotal(SortKey(ps[i].name), SortKey(ps[i].name));
    } else {
      SortedPairwise(ps, i, j - 1);
      LexLeTransitive(SortKey(ps[i].name), SortKey(ps[j - 1].name), SortKey(ps[j].name));
    }
  }

  /** The sort is stable in the sense that an already ordered list comes back unchanged. */
  lemma {:induction false} SortOfSorted(ps: seq<Participant>)
    requires Sorted(ps)
    ensures SortByKey(ps) == ps
    decreases |ps|
  {
    if ps != [] {
      SortOfSorted(ps[1..]);
      assert ps == [ps[0]] + ps[1..];
    }
  }

  /** The literal array of the Index page, before sorting. */
  function RosterLiteral(): seq<Participant> {
    [ Participant("1", "Spencer Bialek", None, []),
      Participant("2", "Matt Bowley", None, []),
      Participant("3", "Katelyn Bunn", None, []),
      Participant("4", "Heather Earle", None, []),
      Participant("5", "Grayson Hicks", None, []),
      Participant("6", "Arella Kamp", None, []),
      Participant("7", "Cara Nikolai", None, []),
      Participant("8", "Adam Paul", None, []),
      Participant("9", "Babak Zargarian", None, []) ]
  }

  /** `initialParticipants`: the literal sorted by last name. */
  function InitialParticipants(): seq<Participant> {
    SortByKey(RosterLiteral())
  }

  /** The last names of the literal, in its order. */
  function LiteralLastNames(): seq<string> {
    ["Bialek", "Bowley", "Bunn", "Earle", "Hicks", "Kamp", "Nikolai", "Paul", "Zargarian"]
  }

  /** A first and a last name joined by one space: the last name is the last piece. */
  lemma FirstLast(first: string, last: string)
    requires ' ' !in first && ' ' !in last
    ensures IsLastPiece(first + " " + last, ' ', last)
  {
    var s := first + " " + last;
    assert s[|s| - |last|..] == last;
  }

  /** The sort key of each entry of the literal is its last name. */
  lemma LiteralKey(i: nat)
    requires i < 9
    ensures SortKey(RosterLiteral()[i].name) == LiteralLastNames()[i]
  {
    var name, key := RosterLiteral()[i].name, LiteralLastNames()[i];
    LiteralLastPiece(i);
    SortKeyIsLastName(name);
    LastPieceUnique(name, ' ', SortKey(name), key);
  }

  /**
   * One lemma per entry below: each proof obligation then holds a single
   * literal name. With all nine names in one obligation the solver no longer
   * finishes within its resource limit.
   */
  lemma LiteralLastPiece(i: nat)
    requires i < 9
    ensures IsLastPiece(RosterLiteral()[i].name, ' ', LiteralLastNames()[i])
  {
    if i == 0 {
      LastName0();
    } else if i == 1 {
      LastName1();
    } else if i == 2 {
      LastName2();
    } else if i == 3 {
      LastName3();
    } else if i == 4 {
      LastName4();
    } else if i == 5 {
      LastName5();
    } else if i == 6 {
      LastName6();
    } else if i == 7 {
      LastName7();
    } else {
      LastName8();
    }
  }

  lemma LastName0()
    ensures IsLastPiece(RosterLiteral()[0].name, ' ', LiteralLastNames()[0])
  {
    FirstLast("Spencer", "Bialek");
  }

  lemma LastName1()
    ensures IsLastPiece(RosterLiteral()[1].name, ' ', LiteralLastNames()[1])
  {
    FirstLast("Matt", "Bowley");
  }

  lemma LastName2()
    ensures IsLastPiece(RosterLiteral()[2].name, ' ', LiteralLastNames()[2])
  {
    FirstLast("Katelyn", "Bunn");
  }

  lemma LastName3()
    ensures IsLastPiece(RosterLiteral()[3].name, ' ', LiteralLastNames()[3])
  {
    FirstLast("Heather", "Earle");
  }

  lemma LastName4()
    ensures IsLastPiece(RosterLiteral()[4].name, ' ', LiteralLastNames()[4])
  {
    FirstLast("Grayson", "Hicks");
  }

  lemma LastName5()
    ensures IsLastPiece(RosterLiteral()[5].name, ' ', LiteralLastNames()[5])
  {
    FirstLast("Arella", "Kamp");
  }

  lemma LastName6()
    ensures IsLastPiece(RosterLiteral()[6].name, ' ', LiteralLastNames()[6])
  {
    FirstLast("Cara", "Nikolai");
  }

  lemma LastName7()
    ensures IsLastPiece(RosterLiteral()[7].name, ' ', LiteralLastNames()[7])
  {
    FirstLast("Adam", "Paul");
  }

  lemma LastName8()
    ensures IsLastPiece(RosterLiteral()[8].name, ' ', LiteralLastNames()[8])
  {
    FirstLast("Babak", "Zargarian");
  }

  /** The literal is already in last-name order. */
  lemma LiteralSorted()
    ensures Sorted(RosterLiteral())
  {
    var lit, keys := RosterLiteral(), LiteralLastNames();
    forall i | 0 < i < |lit| ensures KeyLe(lit[i - 1], lit[i]) {
      LiteralKey(i - 1);
      LiteralKey(i);
      assert LexLe(keys[i - 1], keys[i]);
    }
  }

  /** The sort is stable and the literal is ordered, so the sort leaves the literal as it was. */
  lemma InitialIsLiteral()
    ensures InitialParticipants() == RosterLiteral()
  {
    LiteralSorted();
    SortOfSorted(RosterLiteral());
  }

  /**
   * The initial roster: nine records with distinct ids, no date chosen and
   * empty grocery lists.
   */
  lemma InitialRoster()
    ensures |InitialParticipants()| == 9 && DistinctIds(InitialParticipants())
    ensures forall p :: p in InitialParticipants() ==> p.selectedDate == None && p.groceryList == []
  {
    InitialIsLiteral();
    LiteralIds();
    LiteralUnset();
  }

  /**
   * The order of the initial roster: sorted by last name, from Bialek to
   * Zargarian (so every earlier participant's key is at most every later
   * one's), and the first participant, the one shown at start, has id "1".
   */
  lemma InitialOrder()
    ensures Sorted(InitialParticipants())
    ensures |InitialParticipants()| == 9 &&
            forall i :: 0 <= i < 9 ==> SortKey(InitialParticipants()[i].name) == LiteralLastNames()[i]
    ensures forall i, j :: 0 <= i <= j < |InitialParticipants()| ==>
              KeyLe(InitialParticipants()[i], InitialParticipants()[j])
    ensures InitialParticipants()[0].id == "1"
  {
    InitialIsLiteral();
    LiteralSorted();
    forall i, j | 0 <= i <= j < |RosterLiteral()| ensures KeyLe(RosterLiteral()[i], RosterLiteral()[j]) {
      SortedPairwise(RosterLiteral(), i, j);
    }
    forall i | 0 <= i < 9 ensures SortKey(RosterLiteral()[i].name) == LiteralLastNames()[i] {
      LiteralKey(i);
    }
  }

  /** The literal's ids are "1" to "9", all different. */
  lemma LiteralIds()
    ensures |RosterLiteral()| == 9 && DistinctIds(RosterLiteral())
  {
  }

  /** No literal record has a date or a grocery item yet. */
  lemma LiteralUnset()
    ensures forall p :: p in RosterLiteral() ==> p.selectedDate == None && p.groceryList == []
  {
  }
}
