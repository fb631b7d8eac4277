/** The card store `Karteikarten`: one table `karteikarten` with `frage` as
    its PRIMARY KEY. Every operation runs one SQL statement inside
    `with self.connection:`, which commits when the statement succeeds and
    rolls the transaction back when it raises; the mutators below do the
    same on the rows: apply the statement, check the key, restore the old
    rows and report the IntegrityError if the check fails. */
module Formatiert {
  import opened Tabelle

  /** How a mutating call ends: committed, or `sqlite3.IntegrityError`
      (raised to the caller after the rollback). */
  datatype Status = Ok | IntegrityError

  class Karteikarten {
    /** The rows of `karteikarten` in storage (rowid) order. */
    var cards: seq<Card>

    /** What the PRIMARY KEY guarantees of every committed table. */
    ghost predicate Valid()
      reads this
    {
      UniqueKeys(cards)
    }

    /** `__init__` and `create_table` on a fresh database file: the store
        starts as an empty table. */
    constructor ()
      ensures Valid() && cards == []
    {
      cards := [];
    }

    /** `INSERT INTO karteikarten VALUES (frage, antwort, kategorie, 0)`. */
    method NeueKarte(frage: string, antwort: string, kategorie: Option<string> := None) returns (status: Status)
      requires Valid()
      modifies this
      ensures Valid()
      ensures status == IntegrityError <==> HasKey(old(cards), frage)
      ensures status == Ok ==> cards == old(cards) + [Card(frage, antwort, kategorie, 0)]
      ensures status == IntegrityError ==> cards == old(cards)
    {
      var before := cards;
      AppendUniqueIff(cards, Card(frage, antwort, kategorie, 0));
      cards := cards + [Card(frage, antwort, kategorie, 0)];
      if UniqueKeys(cards) {
        status := Ok;
      } else {
        cards := before;
        status := IntegrityError;
      }
    }

    /** `SELECT frage, antwort FROM karteikarten [WHERE bewertung >= t]`
        followed by `random.choice`: `None` stands for `(None, None)`, the
        answer when no row qualifies; otherwise some qualifying row, chosen
        by the caller's source of randomness. */
    method KarteLernen(schwierigkeitsbewertung: Option<int> := None) returns (r: Option<Pair>)
      ensures r.None? <==> forall c :: c in cards ==> !Lernbar(schwierigkeitsbewertung, c)
      ensures r.Some? ==> exists c :: c in cards && Lernbar(schwierigkeitsbewertung, c) && r.value == Project(c)
    {
      var rows := Select(cards, c => Lernbar(schwierigkeitsbewertung, c));
      SelectMembers(cards, c => Lernbar(schwierigkeitsbewertung, c));
      if rows == [] {
        r := None;
      } else {
        assert rows[0] in rows;
        var row :| row in rows;
        r := Some(row);
      }
    }

    /** `UPDATE karteikarten SET bewertung = b WHERE frage = f`. No key
        changes, so the statement cannot fail; the rating is not range
        checked. */
    method BewerteKarte(frage: string, bewertung: int)
      requires Valid()
      modifies this
      ensures Valid()
      ensures |cards| == |old(cards)|
      ensures forall i :: 0 <= i < |cards| ==>
        cards[i] == if old(cards)[i].frage == frage then old(cards)[i].(bewertung := bewertung) else old(cards)[i]
      ensures !HasKey(old(cards), frage) ==> cards == old(cards)
    {
      RatingKeepsKeys(cards, frage, bewertung);
      UpdateRows(cards, frage, SetBewertung(bewertung));
      if !HasKey(cards, frage) {
        UpdateAbsent(cards, frage, SetBewertung(bewertung));
      }
      cards := Update(cards, frage, SetBewertung(bewertung));
    }

    /** `UPDATE karteikarten SET frage = neu, antwort = a, kategorie = k
        WHERE frage = alt`: the card keeps its rating and its place; renaming
        it onto another card's key is rolled back. */
    method BearbeiteKarte(alteFrage: string, neueFrage: string, neueAntwort: string,
                          neueKategorie: Option<string> := None) returns (status: Status)
      requires Valid()
      modifies this
      ensures Valid()
      ensures status == IntegrityError <==> Collides(old(cards), alteFrage, neueFrage)
      ensures status == IntegrityError ==> cards == old(cards)
      ensures status == Ok ==> |cards| == |old(cards)| && forall i :: 0 <= i < |cards| ==>
        cards[i] == if old(cards)[i].frage == alteFrage
                    then Card(neueFrage, neueAntwort, neueKategorie, old(cards)[i].bewertung)
                    else old(cards)[i]
      ensures !HasKey(old(cards), alteFrage) ==> status == Ok && cards == old(cards)
    {
      var before := cards;
      var assignment := SetFields(neueFrage, neueAntwort, neueKategorie);
      EditUniqueIff(cards, alteFrage, neueFrage, neueAntwort, neueKategorie);
      UpdateRows(cards, alteFrage, assignment);
      if !HasKey(cards, alteFrage) {
        UpdateAbsent(cards, alteFrage, assignment);
      }
      cards := Update(cards, alteFrage, assignment);
      if UniqueKeys(cards) {
        status := Ok;
      } else {
        cards := before;
        status := IntegrityError;
      }
    }

    /** `DELETE FROM karteikarten WHERE frage = f`: cuts out the one card
        keyed `f`, if there is one, and keeps the others in order. */
    method LoescheKarte(frage: string)
      requires Valid()
      modifies this
      ensures Valid()
      ensures !HasKey(cards, frage)
      ensures HasKey(old(cards), frage) ==>
        cards == old(cards)[..IndexOf(old(cards), frage)] + old(cards)[IndexOf(old(cards), frage) + 1..]
      ensures !HasKey(old(cards), frage) ==> cards == old(cards)
    {
      DeleteKeepsUnique(cards, frage);
      DeleteIdempotent(cards, frage);
      if HasKey(cards, frage) {
        DeleteRemovesOne(cards, frage);
      } else {
        DeleteAbsent(cards, frage);
      }
      cards := Delete(cards, frage);
    }

    /** `SELECT frage, antwort FROM karteikarten WHERE frage LIKE '%s%' OR
        antwort LIKE '%s%' OR kategorie LIKE '%s%'`, all rows fetched: the
        matching cards, each once, an empty list when none match. */
    function SucheKarteikarten(suchbegriff: string): (r: seq<Pair>)
      reads this
      ensures forall p :: p in r <==> exists c :: c in cards && Treffer(suchbegriff, c) && p == Project(c)
      ensures UniqueKeys(cards) ==> forall k, l :: 0 <= k < l < |r| ==> r[k].frage != r[l].frage
    {
      SelectMembers(cards, c => Treffer(suchbegriff, c));
      if UniqueKeys(cards) then
        SelectDistinct(cards, c => Treffer(suchbegriff, c));
        Select(cards, c => Treffer(suchbegriff, c))
      else
        Select(cards, c => Treffer(suchbegriff, c))
    }

    /** `SELECT frage, antwort FROM karteikarten WHERE kategorie = k` and
        `fetchone`: the first card of category `k` in storage order, or
        `None`. A NULL category never matches. */
    function KategorieAbrufen(kategorie: Option<string>): (r: Option<Pair>)
      reads this
      ensures r.None? <==> forall c :: c in cards ==> !KategorieGleich(kategorie, c)
      ensures kategorie.None? ==> r.None?
      ensures r.Some? ==> exists i :: 0 <= i < |cards| && KategorieGleich(kategorie, cards[i])
                                      && r.value == Project(cards[i])
                                      && forall j :: 0 <= j < i ==> !KategorieGleich(kategorie, cards[j])
    {
      var rows := Select(cards, c => KategorieGleich(kategorie, c));
      SelectMembers(cards, c => KategorieGleich(kategorie, c));
      if rows == [] then None
      else
        SelectFirst(cards, c => KategorieGleich(kategorie, c));
        Some(rows[0])
    }
  }

  /** A study session driven through the store's contracts alone: a second
      insert of a key fails and leaves the first card as it was, a filtered
      draw can only yield the one card rated high enough, the category lookup
      yields the first card of that category, and after a delete the card is
      gone. */
  method Sitzung() {
    var store := new Karteikarten();
    var s1 := store.NeueKarte("2+2=?", "4", Some("math"));
    var s2 := store.NeueKarte("capital of France?", "Paris", Some("geo"));
    assert s1 == Ok && s2 == Ok;
    var math := Card("2+2=?", "4", Some("math"), 0);
    assert store.cards == [math, Card("capital of France?", "Paris", Some("geo"), 0)];

    assert store.cards[0].frage == "2+2=?";
    var s3 := store.NeueKarte("2+2=?", "5");
    assert s3 == IntegrityError && store.cards[0] == math;

    store.BewerteKarte("capital of France?", 5);
    store.BewerteKarte("capital of France?", 5);
    assert store.cards == [math, Card("capital of France?", "Paris", Some("geo"), 5)];
    var paris := store.cards[1];
    assert !Lernbar(Some(4), math) && Lernbar(Some(4), paris) && paris in store.cards;
    var drawn := store.KarteLernen(Some(4));
    assert forall c :: c in store.cards ==> c == math || c == paris;
    assert drawn == Some(Pair("capital of France?", "Paris"));
    var none := store.KarteLernen(Some(6));
    assert none == None;
    Nachschlagen(store);
  }

  /** Looking cards up in the table of the session above, then deleting one. */
  method Nachschlagen(store: Karteikarten)
    requires store.Valid()
    requires store.cards == [Card("2+2=?", "4", Some("math"), 0), Card("capital of France?", "Paris", Some("geo"), 5)]
    modifies store
  {
    var math, paris := store.cards[0], store.cards[1];
    assert KategorieGleich(Some("math"), store.cards[0]);
    assert store.KategorieAbrufen(Some("math")) == Some(Pair("2+2=?", "4"));

    assert Treffer("a", math) && Treffer("a", paris);
    var found := store.SucheKarteikarten("a");
    assert Project(math) in found && Project(paris) in found;

    store.LoescheKarte("2+2=?");
    assert store.cards == [Card("capital of France?", "Paris", Some("geo"), 5)];
    assert store.KategorieAbrufen(Some("math")) == None;
  }
}
