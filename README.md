# Library lending manager — Dafny model

This project models the in-memory lending manager of `sistema_gestione_biblioteca.py`. The manager is a `Biblioteca` that holds:

- a catalog of `Libro` books keyed by ISBN;
- a table of `Utente` members keyed by member id;
- the loan records that tie them together.

The model covers:

- adding a book and registering a member, both refusing duplicate keys;
- borrowing a copy, behind four guards: unknown member, unknown book, no copy left, and five records already in the member's list;
- returning a copy: a first-match search for the member's active record of that book, the late-day fine, closing the record and giving the copy back;
- three read-only reports: the availability listing, the due status of a member's active loans, and the statistics aggregates.

The model has three modules:

- `Registro` (`registro.dfy`) holds the clock and the fines, the loan record, the counting of active records, and the search a return performs. The search is a `while` loop proved equal to a recursive specification.
- `Catalogo` (`catalogo.dfy`) states the library's whole state as a value (`Archivio`) and each operation as a function of it. It also defines the invariant `Coerente`, which every operation keeps. For each book, total copies minus available copies equals the number of its active records. The invariant gives:
  - `0 <= available <= total` for every book whose total is not negative;
  - every record belongs to a book in the catalog, so the copy increment on return never meets a missing book;
  - no member has more than five active loans.

  The reports are functions over the state.
- `GestioneBiblioteca` (`biblioteca.dfy`) holds the `Biblioteca` class. Its catalog, member table and record register are fields that the four operations reassign in place. Each method is proved to keep `Valid()` (the invariant) and to leave the object in exactly the state the corresponding `Catalogo` function gives.

Modelling choices:

- **Loan records.** The source appends one dict object to both the member's and the book's list, so the two lists alias each record. The model keeps every record once, in a register (`seq<Prestito>`). The book and the member hold indices into it. Marking a record returned is therefore seen through both lists, as in the source.
- **Clock.** `datetime.now()` becomes an instant parameter `adesso`, in microseconds, which is the resolution of Python's `datetime`. A due date is a day number, as the source's date-only string is. The late days are `(now - midnight of the due day).days`, and the days left are `(midnight of the due day - now).days`. Both are floored whole days, as `timedelta.days` is.
- **Money.** Fines are integer euro cents. The rate is 200, standing for the source's 2.0 EUR.
- **Borrow limit.** The source's check counts every record in the member's list, returned ones included, and the model follows it. Its refusal message (line 99, "Limite di 5 libri in prestito raggiunto") speaks of a limit of five books on loan, that is, of active loans. Under the code as written, a member who has made five loans can never borrow again (`Catalogo.LimiteSullaStoria`). The weaker promise of at most five active loans holds too (`Catalogo.AttiviPerUtente`).
- **Books and members.** These are values (`datatype`) held in the library's maps. The library's methods replace a map entry with an updated copy.

## Model

| member | source | states |
|---|---|---|
| Registro.Giorno | sistema_gestione_biblioteca.py:110 | an instant's calendar day is the day whose midnight is at or before it and whose next midnight is after it |
| Registro.Mezzanotte | sistema_gestione_biblioteca.py:143 | the midnight of a day lies on that day and at a whole number of days |
| Registro.Scadenza | sistema_gestione_biblioteca.py:103-104 | the due day is the loan's calendar day plus the loan period |
| Registro.GiorniRitardo | sistema_gestione_biblioteca.py:144-145 | the floored whole days from the due day's midnight to now are exactly the difference of the calendar days |
| Registro.GiorniRimanenti | sistema_gestione_biblioteca.py:194-195 | the floored whole days from now to the due day's midnight are the calendar-day difference, less one unless now is exactly midnight |
| Registro.Multa | sistema_gestione_biblioteca.py:143-149 | the fine is 0 up to and including the due day, and (late days × rate) after it |
| Registro.MultaMonotona | sistema_gestione_biblioteca.py:147-149 | for a non-negative rate, a fine is never negative, and returning later never costs less |
| Registro.Classifica | sistema_gestione_biblioteca.py:197-202 | overdue iff the days left are negative, due soon iff they are 0 to 3, fine iff more than 3 |
| Registro.ClassificaIstante | sistema_gestione_biblioteca.py:197-202 | a loan is overdue once its due day has started, due soon during the four days before, and fine earlier |
| Registro.InRitardoSenzaMulta | sistema_gestione_biblioteca.py:194-199 | on the due day after midnight the report already shows "overdue", while a return that day has no fine |
| Registro.Attivi | sistema_gestione_biblioteca.py:187 | the count of not-returned records of a list is at most the list's length |
| Registro.PrestitiAttivi | sistema_gestione_biblioteca.py:187 | the active records of a list, in list order: exactly the list's not-returned records, as many as the count, and increasing when the list is |
| Registro.AttiviAggiunta | sistema_gestione_biblioteca.py:115-116 | appending a new active record to a list adds one to its active count |
| Registro.AttiviRestituzione | sistema_gestione_biblioteca.py:153 | marking an active record returned takes one off the count of a list that names it, and changes no other list's count |
| Registro.AttiviEstensione | sistema_gestione_biblioteca.py:115-116 | new records in the register do not change the count of a list naming only older ones |
| Registro.PrimoAttivo | sistema_gestione_biblioteca.py:133-137 | the first position whose record is for that book and not returned; None exactly when no such record is in the list |
| Registro.CercaPrestitoAttivo | sistema_gestione_biblioteca.py:133-137 | the search loop with early exit finds exactly that first match |
| Registro.PrimoAttivoInCoda | sistema_gestione_biblioteca.py:134-137 | a new record appended to a list with no match is its first match |
| Catalogo.NuovoLibro | sistema_gestione_biblioteca.py:7-14 | a new book has all its copies available and no loans |
| Catalogo.NuovoUtente | sistema_gestione_biblioteca.py:32-36 | a new member has no loans |
| Catalogo.AggiungiLibro | sistema_gestione_biblioteca.py:61-69 | succeeds iff the ISBN is new; a refusal changes nothing, a success files the book under its ISBN |
| Catalogo.RegistraUtente | sistema_gestione_biblioteca.py:71-79 | succeeds iff the id is new; a refusal changes nothing, a success files the member under its id |
| Catalogo.EsitoAggiunta | sistema_gestione_biblioteca.py:61-69 | adding a book fails iff its ISBN is present, changing nothing; otherwise it adds exactly that key, last in listing order, and nothing else |
| Catalogo.AggiuntaIdempotente | sistema_gestione_biblioteca.py:63-65 | adding the same book a second time is refused and changes nothing |
| Catalogo.AggiuntaCoerente | sistema_gestione_biblioteca.py:61-69 | adding a new book keeps the invariant |
| Catalogo.EsitoRegistrazione | sistema_gestione_biblioteca.py:71-79 | registering fails iff the id is taken, changing nothing; otherwise it adds exactly that member and nothing else |
| Catalogo.RegistrazioneCoerente | sistema_gestione_biblioteca.py:71-79 | registering a new member keeps the invariant |
| Catalogo.PrendiInPrestito | sistema_gestione_biblioteca.py:81-121 | succeeds iff the member and the book are known, a copy is left and the member's list has fewer than five records; a refusal changes nothing |
| Catalogo.Registrazione | sistema_gestione_biblioteca.py:102-117 | a successful borrow appends one record to the register and keeps the older ones, the catalog's and members' keys and the listing order |
| Catalogo.EsitoPrestito | sistema_gestione_biblioteca.py:81-117 | a borrow succeeds iff all four guards pass, and a refusal changes nothing; a success appends exactly the new record to the register and its index to the book's and the member's lists, removes one copy of that book and changes none of its other fields, adds one active loan to the book and to the member, and leaves the other books and members alone |
| Catalogo.EsitoRegistrazionePrestito | sistema_gestione_biblioteca.py:115-117 | the successful half of a borrow appends the new record and its index to both lists, takes one copy off, changes the active-record counts by exactly one and touches no other book or member |
| Catalogo.NuovoPrestitoRegistrato | sistema_gestione_biblioteca.py:103-113 | the new record is appended to the register, for that book and title, made now, due on the loan day plus the period, not returned and with no fine |
| Catalogo.PrestitoRiuscito | sistema_gestione_biblioteca.py:115-117 | a successful borrow appends the new record's index to the member's list and to the book's list, removes one copy of that book and changes none of its other fields, touching no other book |
| Catalogo.PrestitoCoerente | sistema_gestione_biblioteca.py:81-121 | borrowing keeps the invariant |
| Catalogo.PrestitoRiuscitoCoerente | sistema_gestione_biblioteca.py:102-117 | the successful half of a borrow keeps the invariant |
| Catalogo.LimiteSullaStoria | sistema_gestione_biblioteca.py:98-100 | a member whose list holds five records, returned ones included, is always refused |
| Catalogo.AttiviPerUtente | sistema_gestione_biblioteca.py:98-100 | under the invariant no member has more than five active loans |
| Catalogo.CopieNeiLimiti | sistema_gestione_biblioteca.py:117 | under the invariant a book whose total is not negative has between 0 and total copies available |
| Catalogo.RestituisciLibro | sistema_gestione_biblioteca.py:123-158 | a refused return changes nothing; a return with a fine names a known member and book; members, listing order and catalog keys never change |
| Catalogo.Chiusura | sistema_gestione_biblioteca.py:153-155 | the record is marked returned with the fine, no other record changes, and members, listing order and catalog keys stay as they were |
| Catalogo.RestituzioneRifiutata | sistema_gestione_biblioteca.py:125-141 | an unknown member, or no active record for that book in the member's list, gives None and changes nothing |
| Catalogo.RestituzioneTrovata | sistema_gestione_biblioteca.py:133-158 | when the search finds a record, the book is in the catalog, and the return closes that record with its fine and gives the copy back |
| Catalogo.EsitoRestituzione | sistema_gestione_biblioteca.py:123-158 | a return gives None iff the member is unknown or has no active record of the book, changing nothing; otherwise the member's first active record of that book is closed with its fine, every other record is unchanged, the book has one copy more and one active loan fewer and its other fields are unchanged, and no other book or member changes |
| Catalogo.RestituzioneCoerente | sistema_gestione_biblioteca.py:123-158 | returning keeps the invariant |
| Catalogo.ChiusuraCoerente | sistema_gestione_biblioteca.py:153-155 | closing an active record of a book and giving its copy back keeps the invariant |
| Catalogo.ChiusuraLibri | sistema_gestione_biblioteca.py:153-155 | closing an active record keeps every book's copy count equal to its active records |
| Catalogo.ChiusuraRegistro | sistema_gestione_biblioteca.py:153-155 | closing a record keeps every record listed by its book |
| Catalogo.ChiusuraAttivi | sistema_gestione_biblioteca.py:153 | closing an active record takes one off its book's active count |
| Catalogo.LibriDopoChiusura | sistema_gestione_biblioteca.py:155 | closing a record gives one copy back to its book and touches no other book |
| Catalogo.RestituzioneDelNuovoPrestito | sistema_gestione_biblioteca.py:106-155 | returning right after borrowing closes the record just made, with the fine for its due day |
| Catalogo.PrestitoPoiRestituzione | sistema_gestione_biblioteca.py:115-155 | a borrow followed by the return of that book leaves every book's available copies as they were, even when the member already had an active copy of it |
| Catalogo.Voce | sistema_gestione_biblioteca.py:170-175 | a listing line carries the book's title, author, year and counts, and says available iff a copy is left |
| Catalogo.LibriDisponibili | sistema_gestione_biblioteca.py:160-175 | the i-th line is exactly the line of the i-th book in insertion order (title, author, year, counts, and the availability flag iff copies > 0); every book listed; empty iff the catalog is |
| Catalogo.Voci | sistema_gestione_biblioteca.py:170-175 | the i-th line is that of the i-th listed book |
| Catalogo.VoceDi | sistema_gestione_biblioteca.py:193-202 | a status line carries the title and the days left, and says overdue once the due day has started, due soon in the four days before, fine earlier |
| Catalogo.PrestitiUtente | sistema_gestione_biblioteca.py:177-202 | None iff the member is unknown; otherwise at most five lines, one per active record in loan order (increasing record index), each with its days left and classification |
| Catalogo.SommaTotali | sistema_gestione_biblioteca.py:210 | the total copies summed over books that all have a non-negative total are not negative |
| Catalogo.SommaDisponibili | sistema_gestione_biblioteca.py:211 | the available copies summed over books that all have a non-negative count are not negative |
| Catalogo.SommeCoerenti | sistema_gestione_biblioteca.py:210-212 | the total minus the available copies, summed over the books, equals their active records |
| Catalogo.DisponibiliNonNegative | sistema_gestione_biblioteca.py:211 | with no book of negative size, the available copies sum to at least 0 |
| Catalogo.GeneraStatistiche | sistema_gestione_biblioteca.py:204-219 | title and member counts; total and available copies are the sums over the books; copies on loan are total minus available, equal to the active records, and not negative; the rate is loaned over total as a percentage, and 0 when there are no copies |
| Catalogo.Tasso | sistema_gestione_biblioteca.py:219 | the rate is 0 without copies and lies between 0 and 100 when loaned ≤ total |
| Catalogo.TassoLimitato | sistema_gestione_biblioteca.py:219 | with no book of negative size, the utilisation rate is between 0 and 100 |
| GestioneBiblioteca.Biblioteca.constructor | sistema_gestione_biblioteca.py:54-59 | a new library is empty, coherent, has 14-day loans and a 2.00 EUR daily fine |
| GestioneBiblioteca.Biblioteca.AggiungiLibro | sistema_gestione_biblioteca.py:61-69 | the in-place insertion reaches exactly the state `Catalogo.AggiungiLibro` gives, and keeps the invariant |
| GestioneBiblioteca.Biblioteca.RegistraUtente | sistema_gestione_biblioteca.py:71-79 | the in-place registration reaches exactly the state `Catalogo.RegistraUtente` gives, and keeps the invariant |
| GestioneBiblioteca.Biblioteca.PrendiInPrestito | sistema_gestione_biblioteca.py:81-121 | the in-place borrow returns the result, and reaches the state, `Catalogo.PrendiInPrestito` gives, and keeps the invariant |
| GestioneBiblioteca.Biblioteca.RegistraPrestito | sistema_gestione_biblioteca.py:102-117 | the three appends and the decrement reach the state of a successful borrow |
| GestioneBiblioteca.Biblioteca.RestituisciLibro | sistema_gestione_biblioteca.py:123-158 | the in-place return, with its search loop, returns the fine, and reaches the state, `Catalogo.RestituisciLibro` gives, and keeps the invariant |
| GestioneBiblioteca.Biblioteca.ChiudiPrestito | sistema_gestione_biblioteca.py:153-155 | the record is marked returned with its fine, and the book gets its copy back |
| GestioneBiblioteca.Allestisci | sistema_gestione_biblioteca.py:226-241 | a new library with one single-copy book and two members without loans |
| GestioneBiblioteca.Contesa | sistema_gestione_biblioteca.py:94-117 | the first member gets the only copy; the second, asking next, is refused |
| GestioneBiblioteca.RestituzioneTardiva | sistema_gestione_biblioteca.py:143-158 | a return 17 days after a 14-day loan costs three days of fine and makes the copy available again |
| GestioneBiblioteca.UnaCopiaDueUtenti | sistema_gestione_biblioteca.py:81-158 | the whole scenario: second borrower refused, a fine of 6.00 EUR, one copy available at the end |

## Left out

- Console output is not modelled: the `print` status messages, the emoji and the report banners. The reports are functions that return their lines as values.
- `datetime.now()`, `strftime` and `strptime` are not modelled. The current instant is a parameter. A date string is its day number. The `"%Y-%m-%d %H:%M"` loan timestamp keeps the full instant instead of rounding it to the minute, and nothing reads it back. The loan-status report reads the clock once per line (line 195 is inside the loop), while `Catalogo.PrestitiUtente` uses one instant for every line.
- Floating point is not modelled. Fines are integer cents, and the utilisation rate is a Dafny `real`, so the `:.1f` rounding of the printed percentage is left out.
- `to_dict`, `__str__`, the `json` import and `Utente.data_registrazione` are not modelled. They are presentation only, and registration time does not affect behaviour.
- The `__main__` demo is not modelled line by line. The scenario `GestioneBiblioteca.UnaCopiaDueUtenti` exercises borrowing, a refused borrow, a late return and its fine on one book and two members. The demo's four books and three members and its calls to the three reports are not replayed.
- Aliasing of `Libro` and `Utente` objects is not modelled, because they are values here. In the source, the caller keeps a reference to the object it passed to `aggiungi_libro` or `registra_utente`, and sees the library's later updates through it.
- GestioneBiblioteca.Biblioteca.AggiungiLibro: requires the book as its constructor makes it (no loans, all copies available). The source accepts any `Libro`, but a book that already has loans would break the copy-counting invariant.
- GestioneBiblioteca.Biblioteca.RegistraUtente: requires a member with an empty loan list, as the constructor makes it, for the same reason.
- Catalogo.RestituisciLibro: requires the invariant. That is how the model shows that the crash of the source on a missing book (`libro` is `None` at line 155) cannot happen. Every record names a book in the catalog, and books are never removed.
- Catalogo.RestituzioneDelNuovoPrestito: assumes the member had no other active record of the same book. Otherwise the first-match search would close that older record instead of the new one.
