# Karteikarten: a verified model of the flashcard store

The flashcard app of this repository keeps its cards in one sqlite table,
`karteikarten(frage TEXT PRIMARY KEY, antwort TEXT, kategorie TEXT, bewertung INTEGER)`.
The class `Karteikarten` (`formatiert.py`) is the store over that table. It can
insert a card with rating 0, draw a random card filtered by a minimum rating,
rate a card, edit (and so rename) a card, delete a card, search three columns
for a substring, and fetch the first card of a category. Each operation sends
one SQL statement inside `with self.connection:`. That block commits when the
statement succeeds. When the statement raises, the block rolls back and
re-raises the error.

The model has two modules:

- `tabelle.dfy`, module `Tabelle`. It holds the rows (`Card`) and gives each SQL
  statement its meaning as a recursive function over the rows in storage (rowid)
  order: `Update`, `Delete` and `Select`. A plain table scan visits rows in
  storage order. An `INSERT` appends a row with the next rowid. An `UPDATE` keeps
  the row's rowid, so the row keeps its place. Lemmas state what each statement
  does to the whole table: which rows change, what the PRIMARY KEY allows, and
  which rows a query returns and in what order.
- `formatiert.dfy`, module `Formatiert`. It holds the class `Karteikarten`, whose
  field `cards: seq<Card>` is the table. The mutators are methods that
  `modify` it. `NeueKarte` and `BearbeiteKarte` apply their statement, check the
  key, and on a violation put the old rows back and return `IntegrityError`.
  That is the rollback. `BewerteKarte` and `LoescheKarte` cannot violate the key.
  The read-only queries are functions of the table. `KarteLernen` picks its row
  nondeterministically (`:|`) among the selected rows. Python's default
  arguments (`kategorie=None`, `schwierigkeitsbewertung=None`) are Dafny default
  parameter values. SQL NULL is `None` of `Option`. `karte_lernen`'s
  `(None, None)` result is `None`. The two client methods `Sitzung` and
  `Nachschlagen` replay a short study session using the contracts alone.

Points where the store's behaviour is easy to misread:

- Every mutator commits on its own through its `with` block, so a separate
  flush is not needed for the table's contents.
- Renaming a card onto another card's key (`bearbeite_karte`) raises sqlite's
  IntegrityError exactly as a duplicate insert does, and is rolled back.
- The store accepts any rating; the range 1–5 is checked only by the UI.
- After a delete, a search for the deleted question can still return other
  cards that contain that text. What holds, and is proved, is that no query
  returns the deleted card itself.

## Model

| member | source | states |
|---|---|---|
| `Formatiert.Karteikarten.constructor` | formatiert.py:6-12 | the store starts as an empty table that satisfies the key invariant |
| `Formatiert.Karteikarten.NeueKarte` | formatiert.py:14-17 | an insert fails with IntegrityError exactly when the key already exists, and the table is then unchanged (rollback); otherwise exactly `(frage, antwort, kategorie, 0)` is appended and no other card changes; key uniqueness is preserved |
| `Formatiert.Karteikarten.KarteLernen` | formatiert.py:19-29 | the result is "no card" exactly when no card passes the filter; otherwise it is `(frage, antwort)` of some card with `bewertung >= t` (every card when `t` is None or 0); the table is not modified |
| `Formatiert.Karteikarten.BewerteKarte` | formatiert.py:31-33 | only the card keyed `frage` gets the new rating, with its other fields unchanged; every other card is unchanged; an absent key is a silent no-op; no range check |
| `Formatiert.Karteikarten.BearbeiteKarte` | formatiert.py:35-38 | the card keyed `alt` gets the new question, answer and category and keeps its rating and position; an absent `alt` is a no-op; IntegrityError with an unchanged table exactly when `neu` is another card's key |
| `Formatiert.Karteikarten.LoescheKarte` | formatiert.py:40-42 | afterwards no card has key `frage`; exactly that card is cut out and the others keep their order; an absent key is a no-op |
| `Formatiert.Karteikarten.SucheKarteikarten` | formatiert.py:44-48 | returns the `(frage, antwort)` of exactly the cards whose question, answer or non-NULL category contains the term, and an empty list when none do; no question appears twice |
| `Formatiert.Karteikarten.KategorieAbrufen` | formatiert.py:50-53 | returns the first card in storage order whose category equals `k`, or None exactly when no card has that category; a NULL argument never matches |
| `Tabelle.AppendUniqueIff` | formatiert.py:12-17 | appending a row keeps the PRIMARY KEY unique if and only if its key is new |
| `Tabelle.UpdateRows` | formatiert.py:31-38 | an UPDATE changes exactly the rows keyed `f`, in place, and leaves every other row as it was |
| `Tabelle.UpdateAbsent` | formatiert.py:31-38 | an UPDATE whose key matches no row leaves the table unchanged |
| `Tabelle.RatingKeepsKeys` | formatiert.py:31-33 | setting a rating changes no key, so the PRIMARY KEY invariant is preserved |
| `Tabelle.RatingIdempotent` | formatiert.py:31-33 | rating a card twice with the same value gives the same table as rating it once |
| `Tabelle.EditUniqueIff` | formatiert.py:35-38 | after an edit the keys are unique if and only if there is no collision (`alt` exists, `neu != alt`, and `neu` is a key) |
| `Tabelle.Update` | formatiert.py:31-38 | an UPDATE keeps the table's length: no row is added or removed; which rows change and how is stated row by row by `Tabelle.UpdateRows` |
| `Tabelle.Select` | formatiert.py:19-53 | a SELECT returns no more rows than the table has; which rows it returns is stated by `Tabelle.SelectMembers` and their order by `Tabelle.SelectAppend` |
| `Tabelle.Delete` | formatiert.py:40-42 | a DELETE keeps exactly the rows whose key differs from `f` |
| `Tabelle.DeleteAbsent` | formatiert.py:40-42 | a DELETE whose key matches no row leaves the table unchanged |
| `Tabelle.DeleteRemovesOne` | formatiert.py:40-42 | with unique keys, a DELETE of an existing key removes exactly that one row and keeps the others in order |
| `Tabelle.DeleteIdempotent` | formatiert.py:40-42 | after a delete the key is absent, so deleting again changes nothing |
| `Tabelle.DeleteKeepsUnique` | formatiert.py:40-42 | a delete preserves PRIMARY KEY uniqueness |
| `Tabelle.DeletedNeverSelected` | formatiert.py:40-53 | after a delete, no query returns a row with the deleted key |
| `Tabelle.SelectMembers` | formatiert.py:22-25 | a SELECT returns exactly the projections of the rows satisfying its WHERE clause, and an empty result exactly when no row does |
| `Tabelle.SelectAppend` | formatiert.py:44-48 | a SELECT returns rows in storage order: selecting from two consecutive parts of the table gives the first part's rows before the second's |
| `Tabelle.SelectDistinct` | formatiert.py:44-48 | with unique keys, no two rows of a SELECT result have the same question |
| `Tabelle.SelectFirst` | formatiert.py:50-53 | the first row of a SELECT (`fetchone`) is the first matching row in storage order |

## Left out

- `KarteikartenApp` (formatiert.py:61-206) is the tkinter UI and is not modelled. That includes its rating validation and its own quirks.
- The sqlite connection lifecycle is file I/O and is not modelled: `connect`, `speichern`/`commit` and `__del__`/`close`. Opening a database file that already holds rows is not modelled either; the store starts empty, as on a fresh file.
- Formatiert.Karteikarten.KarteLernen: does not state that `random.choice` is uniform over the selected rows, because probabilities cannot be stated here. It states only that the pick is one of them.
- Formatiert.Karteikarten.SucheKarteikarten: treats `LIKE '%s%'` as case-sensitive substring search. sqlite's ASCII case folding is not modelled, and neither are `%` and `_` inside the search term acting as wildcards.
- Formatiert.Karteikarten.SucheKarteikarten: its own contract states which cards are returned and that none appears twice. The storage order of the result is stated about `Select` by `Tabelle.SelectAppend`.
- sqlite's dynamic typing is not modelled. Columns hold the types the schema declares and the UI passes: text questions and answers, an optional text category, an integer rating. A NULL question, a NULL or non-integer rating, and a threshold that is not an integer are outside the model. Python truthiness is modelled only for an integer threshold, where None and 0 are falsy.
- Ratings are unbounded integers. sqlite's 64-bit INTEGER limit is not modelled.
- Storage order assumes sqlite gives each inserted row the next rowid. The random rowid sqlite picks once the largest rowid is in use is not modelled.
- Storage and I/O errors, which the store does not handle, are not modelled.
