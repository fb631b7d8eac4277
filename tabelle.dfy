/** The sqlite table `karteikarten` of the flashcard store and the meaning of
    the SQL statements the store sends to it.

    The table is a sequence of rows in storage (rowid) order: a plain table
    scan, and therefore every `SELECT` without `ORDER BY` the store issues,
    visits the rows in that order, an `INSERT` appends a row, an `UPDATE`
    keeps a row where it is and a `DELETE` removes it. Each statement is
    written as the engine runs it, row by row, and what it means for the
    whole table is proved about it in the lemmas below. */
module Tabelle {

  datatype Option<T> = None | Some(value: T)

  /** One row `(frage, antwort, kategorie, bewertung)`; a `kategorie` of
      `None` is SQL NULL. */
  datatype Card = Card(frage: string, antwort: string, kategorie: Option<string>, bewertung: int)

  /** The two columns `frage, antwort` that every query of the store selects. */
  datatype Pair = Pair(frage: string, antwort: string)

  function Project(c: Card): Pair {
    Pair(c.frage, c.antwort)
  }

  /** `frage` is the PRIMARY KEY: no two rows share it. */
  predicate UniqueKeys(cards: seq<Card>) {
    forall i, j | 0 <= i < j < |cards| :: cards[i].frage != cards[j].frage
  }

  /** Some row has key `f`. */
  predicate HasKey(cards: seq<Card>, f: string) {
    exists i | 0 <= i < |cards| :: cards[i].frage == f
  }

  /** The position of the first row keyed `f` (the only one, under UniqueKeys). */
  function IndexOf(cards: seq<Card>, f: string): (i: nat)
    requires HasKey(cards, f)
    ensures i < |cards| && cards[i].frage == f
    ensures forall j :: 0 <= j < i ==> cards[j].frage != f
  {
    if cards[0].frage == f then 0
    else
      assert HasKey(cards[1..], f) by {
        var k :| 0 <= k < |cards| && cards[k].frage == f;
        assert cards[1..][k - 1].frage == f;
      }
      IndexOf(cards[1..], f) + 1
  }

  // ---------------------------------------------------------------------
  // WHERE clauses

  /** Python truthiness of the optional threshold of `karte_lernen`:
      `None` and `0` are falsy. */
  predicate Truthy(t: Option<int>) {
    t.Some? && t.value != 0
  }

  /** The rows `karte_lernen(t)` draws from: `WHERE bewertung >= t` when `t`
      is truthy, every row otherwise. */
  predicate Lernbar(t: Option<int>, c: Card) {
    Truthy(t) ==> c.bewertung >= t.value
  }

  /** `sub` occurs in `s` as a contiguous piece. */
  predicate Contains(s: string, sub: string) {
    sub <= s || (s != [] && Contains(s[1..], sub))
  }

  /** `frage LIKE '%s%' OR antwort LIKE '%s%' OR kategorie LIKE '%s%'`, LIKE
      read as case-sensitive substring search; NULL LIKE anything is not
      true. */
  predicate Treffer(s: string, c: Card) {
    Contains(c.frage, s) || Contains(c.antwort, s)
    || (c.kategorie.Some? && Contains(c.kategorie.value, s))
  }

  /** `kategorie = k`; comparing with NULL (on either side) is never true. */
  predicate KategorieGleich(k: Option<string>, c: Card) {
    k.Some? && c.kategorie == k
  }

  // ---------------------------------------------------------------------
  // Statements

  /** The SET clause of an UPDATE statement. */
  datatype Assignment =
    | SetBewertung(bewertung: int)                                         // SET bewertung = ?
    | SetFields(frage: string, antwort: string, kategorie: Option<string>)  // SET frage = ?, antwort = ?, kategorie = ?

  function Assign(a: Assignment, c: Card): Card {
    match a
    case SetBewertung(b) => c.(bewertung := b)
    case SetFields(f, an, k) => c.(frage := f, antwort := an, kategorie := k)
  }

  /** `UPDATE karteikarten SET a WHERE frage = f`, before the PRIMARY KEY
      constraint is checked. */
  function Update(cards: seq<Card>, f: string, a: Assignment): (r: seq<Card>)
    ensures |r| == |cards|
  {
    if cards == [] then []
    else [if cards[0].frage == f then Assign(a, cards[0]) else cards[0]] + Update(cards[1..], f, a)
  }

  /** `DELETE FROM karteikarten WHERE frage = f`. */
  function Delete(cards: seq<Card>, f: string): (r: seq<Card>)
    ensures |r| <= |cards|
    ensures forall c :: c in r <==> c in cards && c.frage != f
  {
    if cards == [] then []
    else if cards[0].frage == f then Delete(cards[1..], f)
    else [cards[0]] + Delete(cards[1..], f)
  }

  /** `SELECT frage, antwort FROM karteikarten WHERE where`, rows in storage
      order. */
  function Select(cards: seq<Card>, where: Card -> bool): (r: seq<Pair>)
    ensures |r| <= |cards|
  {
    if cards == [] then []
    else (if where(cards[0]) then [Project(cards[0])] else []) + Select(cards[1..], where)
  }

  // ---------------------------------------------------------------------
  // INSERT

  /** Appending a row keeps the key unique exactly when its key is new: the
      constraint an INSERT is checked against. */
  lemma AppendUniqueIff(cards: seq<Card>, c: Card)
    requires UniqueKeys(cards)
    ensures UniqueKeys(cards + [c]) <==> !HasKey(cards, c.frage)
  {
    var r := cards + [c];
    if HasKey(cards, c.frage) {
      var i :| 0 <= i < |cards| && cards[i].frage == c.frage;
      assert r[i].frage == r[|cards|].frage;
    }
  }

  // ---------------------------------------------------------------------
  // UPDATE

  /** Row by row, UPDATE changes exactly the rows keyed `f`, in place. */
  lemma {:induction false} UpdateRows(cards: seq<Card>, f: string, a: Assignment)
    ensures forall i :: 0 <= i < |cards| ==>
      Update(cards, f, a)[i] == if cards[i].frage == f then Assign(a, cards[i]) else cards[i]
  {
    if cards != [] {
      UpdateRows(cards[1..], f, a);
      forall i | 0 < i < |cards|
        ensures Update(cards, f, a)[i] == if cards[i].frage == f then Assign(a, cards[i]) else cards[i]
      {
        assert Update(cards, f, a)[i] == Update(cards[1..], f, a)[i - 1];
        assert cards[1..][i - 1] == cards[i];
      }
    }
  }

  /** An UPDATE whose key matches no row changes nothing. */
  lemma {:induction false} UpdateAbsent(cards: seq<Card>, f: string, a: Assignment)
    requires !HasKey(cards, f)
    ensures Update(cards, f, a) == cards
  {
    UpdateRows(cards, f, a);
  }

  /** Setting the rating leaves every key where it was, so the PRIMARY KEY
      constraint cannot fail. */
  lemma {:induction false} RatingKeepsKeys(cards: seq<Card>, f: string, b: int)
    requires UniqueKeys(cards)
    ensures forall i :: 0 <= i < |cards| ==> Update(cards, f, SetBewertung(b))[i].frage == cards[i].frage
    ensures UniqueKeys(Update(cards, f, SetBewertung(b)))
  {
    UpdateRows(cards, f, SetBewertung(b));
  }

  /** Rating a card twice with the same value is the same as rating it once. */
  lemma {:induction false} RatingIdempotent(cards: seq<Card>, f: string, b: int)
    ensures Update(Update(cards, f, SetBewertung(b)), f, SetBewertung(b)) == Update(cards, f, SetBewertung(b))
  {
    var once := Update(cards, f, SetBewertung(b));
    UpdateRows(cards, f, SetBewertung(b));
    UpdateRows(once, f, SetBewertung(b));
  }

  /** An edit that renames `alt` to `neu` violates the PRIMARY KEY exactly
      when `alt` exists and `neu` is the key of another row. */
  predicate Collides(cards: seq<Card>, alt: string, neu: string) {
    HasKey(cards, alt) && neu != alt && HasKey(cards, neu)
  }

  lemma EditUniqueIff(cards: seq<Card>, alt: string, neu: string, an: string, k: Option<string>)
    requires UniqueKeys(cards)
    ensures UniqueKeys(Update(cards, alt, SetFields(neu, an, k))) <==> !Collides(cards, alt, neu)
  {
    var r := Update(cards, alt, SetFields(neu, an, k));
    UpdateRows(cards, alt, SetFields(neu, an, k));
    if !HasKey(cards, alt) {
      UpdateAbsent(cards, alt, SetFields(neu, an, k));
    } else {
      var i := IndexOf(cards, alt);
      assert forall j :: 0 <= j < |cards| && j != i ==> r[j] == cards[j];
      assert r[i].frage == neu;
      if Collides(cards, alt, neu) {
        var j :| 0 <= j < |cards| && cards[j].frage == neu;
        assert j != i && r[j].frage == r[i].frage;
      } else {
        forall p, q | 0 <= p < q < |r| ensures r[p].frage != r[q].frage {
          if p != i && q != i {
            assert r[p] == cards[p] && r[q] == cards[q];
          }
        }
      }
    }
  }

  // ---------------------------------------------------------------------
  // DELETE

  /** A DELETE whose key matches no row changes nothing. */
  lemma {:induction false} DeleteAbsent(cards: seq<Card>, f: string)
    requires !HasKey(cards, f)
    ensures Delete(cards, f) == cards
  {
    if cards != [] {
      forall k | 0 <= k < |cards[1..]| ensures cards[1..][k].frage != f {
        assert cards[1..][k] == cards[k + 1];
      }
      DeleteAbsent(cards[1..], f);
      assert cards[0].frage != f;
      assert cards == [cards[0]] + cards[1..];
    }
  }

  /** Deleting the row keyed `f` cuts exactly that one row out of the table
      and keeps all others in order. */
  lemma {:induction false} DeleteRemovesOne(cards: seq<Card>, f: string)
    requires UniqueKeys(cards) && HasKey(cards, f)
    ensures Delete(cards, f) == cards[..IndexOf(cards, f)] + cards[IndexOf(cards, f) + 1..]
  {
    var tail := cards[1..];
    TailUnique(cards);
    if cards[0].frage == f {
      DeleteAbsent(tail, f);
    } else {
      var i := IndexOf(cards, f);
      var j := IndexOf(tail, f);
      DeleteRemovesOne(tail, f);
      assert [cards[0]] + tail[..j] == cards[..i];
      assert tail[j + 1..] == cards[i + 1..];
    }
  }

  /** Dropping the first row keeps the keys unique, and the dropped key
      occurs nowhere in the rest. */
  lemma TailUnique(cards: seq<Card>)
    requires UniqueKeys(cards) && cards != []
    ensures UniqueKeys(cards[1..])
    ensures !HasKey(cards[1..], cards[0].frage)
  {
  }

  /** Deleting removes every row keyed `f`, so a second delete is a no-op. */
  lemma {:induction false} DeleteIdempotent(cards: seq<Card>, f: string)
    ensures !HasKey(Delete(cards, f), f)
    ensures Delete(Delete(cards, f), f) == Delete(cards, f)
  {
    var r := Delete(cards, f);
    forall k | 0 <= k < |r| ensures r[k].frage != f {
      assert r[k] in r;
    }
    DeleteAbsent(r, f);
  }

  /** After a delete no query can return the deleted card. */
  lemma {:induction false} DeletedNeverSelected(cards: seq<Card>, f: string, where: Card -> bool)
    ensures forall p :: p in Select(Delete(cards, f), where) ==> p.frage != f
  {
    SelectMembers(Delete(cards, f), where);
  }

  /** A subsequence of a table with unique keys has unique keys. */
  lemma {:induction false} DeleteKeepsUnique(cards: seq<Card>, f: string)
    requires UniqueKeys(cards)
    ensures UniqueKeys(Delete(cards, f))
  {
    if HasKey(cards, f) {
      DeleteRemovesOne(cards, f);
      var i := IndexOf(cards, f);
      var r := Delete(cards, f);
      forall p, q | 0 <= p < q < |r| ensures r[p].frage != r[q].frage {
        var p' := if p < i then p else p + 1;
        var q' := if q < i then q else q + 1;
        assert r[p] == cards[p'] && r[q] == cards[q'];
      }
    } else {
      DeleteAbsent(cards, f);
    }
  }

  // ---------------------------------------------------------------------
  // SELECT

  /** A SELECT returns exactly the projections of the rows that satisfy its
      WHERE clause, and nothing at all when no row does. */
  lemma {:induction false} SelectMembers(cards: seq<Card>, where: Card -> bool)
    ensures forall p :: p in Select(cards, where) <==> exists c :: c in cards && where(c) && p == Project(c)
    ensures Select(cards, where) == [] <==> forall c :: c in cards ==> !where(c)
  {
    if cards != [] {
      SelectMembers(cards[1..], where);
      assert cards == [cards[0]] + cards[1..];
      forall c | c in cards ensures c == cards[0] || c in cards[1..] {}
    }
  }

  /** The scan visits the rows in storage order: selecting from two stretches
      of the table one after the other gives the rows of the first stretch
      before those of the second. */
  lemma {:induction false} SelectAppend(a: seq<Card>, b: seq<Card>, where: Card -> bool)
    ensures Select(a + b, where) == Select(a, where) + Select(b, where)
  {
    if a != [] {
      SelectAppend(a[1..], b, where);
      assert (a + b)[1..] == a[1..] + b;
    } else {
      assert a + b == b;
    }
  }

  /** With unique keys no two selected rows share a `frage`, so each card
      appears at most once in a result. */
  lemma {:induction false} SelectDistinct(cards: seq<Card>, where: Card -> bool)
    requires UniqueKeys(cards)
    ensures forall k, l :: 0 <= k < l < |Select(cards, where)| ==>
      Select(cards, where)[k].frage != Select(cards, where)[l].frage
  {
    if cards != [] {
      var tail := cards[1..];
      TailUnique(cards);
      SelectDistinct(tail, where);
      SelectMembers(tail, where);
      var r, rt := Select(cards, where), Select(tail, where);
      if where(cards[0]) {
        forall l | 0 <= l < |rt| ensures rt[l].frage != cards[0].frage {
          assert rt[l] in rt;
          var c :| c in tail && where(c) && rt[l] == Project(c);
          var m :| 0 <= m < |tail| && tail[m] == c;
        }
        forall k, l | 0 <= k < l < |r| ensures r[k].frage != r[l].frage {
          assert r[l] == rt[l - 1];
          if k > 0 { assert r[k] == rt[k - 1]; }
        }
      }
    }
  }

  /** The first row a SELECT returns (`fetchone`) comes from the first row in
      storage order that satisfies the WHERE clause. */
  lemma {:induction false} SelectFirst(cards: seq<Card>, where: Card -> bool)
    requires Select(cards, where) != []
    ensures exists i :: 0 <= i < |cards| && where(cards[i]) && Select(cards, where)[0] == Project(cards[i])
                        && forall j :: 0 <= j < i ==> !where(cards[j])
  {
    if !where(cards[0]) {
      var tail := cards[1..];
      SelectFirst(tail, where);
      var i :| 0 <= i < |tail| && where(tail[i]) && Select(tail, where)[0] == Project(tail[i])
               && forall j :: 0 <= j < i ==> !where(tail[j]);
      assert where(cards[i + 1]) && Select(cards, where)[0] == Project(cards[i + 1]);
      forall j | 0 <= j < i + 1 ensures !where(cards[j]) {
        if j > 0 { assert cards[j] == tail[j - 1]; }
      }
    } else {
      assert Select(cards, where)[0] == Project(cards[0]);
    }
  }
}
