/**
 * The state of the library as a value, the four operations that change it
 * as functions of that value, the invariant they keep, and the three
 * read-only reports.
 *
 * A book and a member are records; the library maps ISBNs to books and
 * member ids to members, remembers the order in which books were added,
 * and keeps every loan record once, in the register. The in-place class in
 * module GestioneBiblioteca is proved to follow these functions.
 */
module Catalogo {
  import opened Registro

  /** Loan period, in days, of a new library. */
  const GiorniPrestitoPredefiniti: int := 14
  /** Fine per late day of a new library, in euro cents (2.00 EUR). */
  const MultaGiornalieraPredefinita: int := 200
  /** A member whose list holds this many records can borrow no more. */
  const LimitePrestiti: nat := 5

  // ---------------------------------------------------------------------------
  // Books, members, the library
  // ---------------------------------------------------------------------------

  /** A catalog entry: its copies and the indices, in the register, of its
      loan records. */
  datatype Libro = Libro(
    isbn: string, titolo: string, autore: string, anno: int,
    copieDisponibili: int, copieTotali: int, prestiti: seq<nat>)

  /** A new book has all its copies available and no loans. */
  function NuovoLibro(isbn: string, titolo: string, autore: string, anno: int, copie: int): (l: Libro)
    ensures l.isbn == isbn && l.titolo == titolo && l.autore == autore && l.anno == anno
    ensures l.copieDisponibili == copie && l.copieTotali == copie && l.prestiti == []
  {
    Libro(isbn, titolo, autore, anno, copie, copie, [])
  }

  /** A registered member and the indices, in the register, of every loan
      the member made, returned ones included. */
  datatype Utente = Utente(idUtente: string, nome: string, email: string, libriPresiInPrestito: seq<nat>)

  /** A new member has no loans. */
  function NuovoUtente(idUtente: string, nome: string, email: string): (u: Utente)
    ensures u.idUtente == idUtente && u.nome == nome && u.email == email
    ensures u.libriPresiInPrestito == []
  {
    Utente(idUtente, nome, email, [])
  }

  /** The library's state: the catalog with its insertion order, the
      members, and the register of loan records. */
  datatype Archivio = Archivio(
    libri: map<string, Libro>,
    ordine: seq<string>,
    utenti: map<string, Utente>,
    registro: seq<Prestito>)

  const ArchivioVuoto: Archivio := Archivio(map[], [], map[], [])

  // ---------------------------------------------------------------------------
  // The invariant
  // ---------------------------------------------------------------------------

  /** A book's records are in the register and are its own, each is listed
      once, in creation order, and the copies out on loan are exactly its
      active records (so no copy is ever lent twice and none is lost). */
  predicate LibroCoerente(registro: seq<Prestito>, b: Libro)
  {
    && IndiciValidi(b.prestiti, |registro|)
    && Crescenti(b.prestiti)
    && (forall j | 0 <= j < |b.prestiti| :: registro[b.prestiti[j]].isbn == b.isbn)
    && b.copieTotali - b.copieDisponibili == Attivi(registro, b.prestiti)
    && (b.copieDisponibili >= 0 || Attivi(registro, b.prestiti) == 0)
  }

  /** A member's records are in the register, listed in creation order,
      and there are at most five. */
  predicate UtenteCoerente(registro: seq<Prestito>, u: Utente)
  {
    && |u.libriPresiInPrestito| <= LimitePrestiti
    && IndiciValidi(u.libriPresiInPrestito, |registro|)
    && Crescenti(u.libriPresiInPrestito)
  }

  /** Every book is filed under its own ISBN and is coherent with the register. */
  predicate LibriCoerenti(libri: map<string, Libro>, registro: seq<Prestito>)
  {
    forall k | k in libri :: libri[k].isbn == k && LibroCoerente(registro, libri[k])
  }

  /** The listing order names every book of the catalog once. */
  ghost predicate OrdineCoerente(libri: map<string, Libro>, ordine: seq<string>)
  {
    && (forall i, j | 0 <= i < j < |ordine| :: ordine[i] != ordine[j])
    && (forall k :: k in libri <==> k in ordine)
  }

  /** Every member is filed under its own id and is coherent with the register. */
  predicate UtentiCoerenti(utenti: map<string, Utente>, registro: seq<Prestito>)
  {
    forall k | k in utenti :: utenti[k].idUtente == k && UtenteCoerente(registro, utenti[k])
  }

  /** Every record is for a book of the catalog and is listed by that book. */
  predicate RegistroCoerente(libri: map<string, Libro>, registro: seq<Prestito>)
  {
    forall i | 0 <= i < |registro| :: registro[i].isbn in libri && i in libri[registro[i].isbn].prestiti
  }

  /** The invariant that every operation of the library keeps. */
  ghost predicate Coerente(a: Archivio)
  {
    && LibriCoerenti(a.libri, a.registro)
    && OrdineCoerente(a.libri, a.ordine)
    && UtentiCoerenti(a.utenti, a.registro)
    && RegistroCoerente(a.libri, a.registro)
  }

  /** Under the invariant every book with a non-negative number of copies
      has between none and all of them available. */
  lemma CopieNeiLimiti(a: Archivio, isbn: string)
    requires Coerente(a) && isbn in a.libri && a.libri[isbn].copieTotali >= 0
    ensures 0 <= a.libri[isbn].copieDisponibili <= a.libri[isbn].copieTotali
  {
    assert LibroCoerente(a.registro, a.libri[isbn]);
  }

  /** Under the invariant no member holds more than five active loans. */
  lemma AttiviPerUtente(a: Archivio, idUtente: string)
    requires Coerente(a) && idUtente in a.utenti
    ensures Attivi(a.registro, a.utenti[idUtente].libriPresiInPrestito) <= LimitePrestiti
  {
    assert UtenteCoerente(a.registro, a.utenti[idUtente]);
  }

  // Per-book steps of the invariant.

  lemma LibroRegistroEsteso(registro: seq<Prestito>, p: Prestito, b: Libro)
    requires LibroCoerente(registro, b)
    ensures LibroCoerente(registro + [p], b)
  {
    AttiviEstensione(registro, [p], b.prestiti);
  }

  lemma LibroPrestato(registro: seq<Prestito>, p: Prestito, b: Libro)
    requires LibroCoerente(registro, b)
    requires b.copieDisponibili > 0 && p.isbn == b.isbn && !p.restituito
    ensures LibroCoerente(registro + [p],
              b.(copieDisponibili := b.copieDisponibili - 1, prestiti := b.prestiti + [|registro|]))
  {
    AttiviAggiunta(registro, b.prestiti, p);
  }

  lemma LibroRestituito(registro: seq<Prestito>, i: nat, q: Prestito, b: Libro)
    requires LibroCoerente(registro, b)
    requires i in b.prestiti && !registro[i].restituito && q.restituito && q.isbn == registro[i].isbn
    ensures LibroCoerente(registro[i := q], b.(copieDisponibili := b.copieDisponibili + 1))
  {
    AttiviRestituzione(registro, b.prestiti, i, q);
  }

  lemma LibroNonCoinvolto(registro: seq<Prestito>, i: nat, q: Prestito, b: Libro)
    requires LibroCoerente(registro, b)
    requires i < |registro| && registro[i].isbn != b.isbn
    requires !registro[i].restituito && q.restituito && q.isbn == registro[i].isbn
    ensures LibroCoerente(registro[i := q], b)
  {
    AttiviRestituzione(registro, b.prestiti, i, q);
  }

  // Steps of the invariant's components.

  /** Lending a copy of `isbn` keeps every book coherent with the register
      that gained the new record. */
  lemma LibriDopoPrestito(libri: map<string, Libro>, registro: seq<Prestito>, isbn: string, p: Prestito)
    requires LibriCoerenti(libri, registro) && isbn in libri
    requires libri[isbn].copieDisponibili > 0 && p.isbn == isbn && !p.restituito
    ensures LibriCoerenti(
              libri[isbn := libri[isbn].(prestiti := libri[isbn].prestiti + [|registro|],
                                         copieDisponibili := libri[isbn].copieDisponibili - 1)],
              registro + [p])
  {
    var b := libri[isbn];
    var nuovi := libri[isbn := b.(prestiti := b.prestiti + [|registro|], copieDisponibili := b.copieDisponibili - 1)];
    LibroPrestato(registro, p, b);
    forall k | k in nuovi
      ensures nuovi[k].isbn == k && LibroCoerente(registro + [p], nuovi[k])
    {
      if k != isbn {
        LibroRegistroEsteso(registro, p, libri[k]);
      }
    }
  }

  /** Appending the new record to a member below the limit keeps every
      member coherent. */
  lemma UtentiDopoPrestito(utenti: map<string, Utente>, registro: seq<Prestito>, idUtente: string, p: Prestito)
    requires UtentiCoerenti(utenti, registro) && idUtente in utenti
    requires |utenti[idUtente].libriPresiInPrestito| < LimitePrestiti
    ensures UtentiCoerenti(
              utenti[idUtente := utenti[idUtente].(libriPresiInPrestito := utenti[idUtente].libriPresiInPrestito + [|registro|])],
              registro + [p])
  {
    var u := utenti[idUtente];
    var nuovi := utenti[idUtente := u.(libriPresiInPrestito := u.libriPresiInPrestito + [|registro|])];
    forall k | k in nuovi
      ensures nuovi[k].idUtente == k && UtenteCoerente(registro + [p], nuovi[k])
    {
      assert UtenteCoerente(registro, utenti[k]);
      if k != idUtente {
        assert nuovi[k] == utenti[k];
      }
    }
  }

  /** The new record is listed by its book; older records keep their place. */
  lemma RegistroDopoPrestito(libri: map<string, Libro>, registro: seq<Prestito>, isbn: string, p: Prestito, d: int)
    requires RegistroCoerente(libri, registro) && isbn in libri && p.isbn == isbn
    ensures RegistroCoerente(
              libri[isbn := libri[isbn].(prestiti := libri[isbn].prestiti + [|registro|], copieDisponibili := d)],
              registro + [p])
  {
    var b := libri[isbn];
    var nuovi := libri[isbn := b.(prestiti := b.prestiti + [|registro|], copieDisponibili := d)];
    forall i | 0 <= i < |registro + [p]|
      ensures (registro + [p])[i].isbn in nuovi && i in nuovi[(registro + [p])[i].isbn].prestiti
    {
      if i < |registro| {
        assert (registro + [p])[i] == registro[i];
        if registro[i].isbn == isbn {
          assert i in b.prestiti;
        }
      } else {
        assert nuovi[isbn].prestiti[|b.prestiti|] == i;
      }
    }
  }

  // ---------------------------------------------------------------------------
  // Catalog insertion
  // ---------------------------------------------------------------------------

  /** Adds a book unless its ISBN is already in the catalog. */
  function AggiungiLibro(a: Archivio, libro: Libro): (r: (Archivio, bool))
    ensures r.1 <==> libro.isbn !in a.libri
    ensures !r.1 ==> r.0 == a
    ensures r.1 ==> libro.isbn in r.0.libri && r.0.libri[libro.isbn] == libro
  {
    if libro.isbn in a.libri then (a, false)
    else (a.(libri := a.libri[libro.isbn := libro], ordine := a.ordine + [libro.isbn]), true)
  }

  /** Registers a member unless the member id is already taken. */
  function RegistraUtente(a: Archivio, utente: Utente): (r: (Archivio, bool))
    ensures r.1 <==> utente.idUtente !in a.utenti
    ensures !r.1 ==> r.0 == a
    ensures r.1 ==> utente.idUtente in r.0.utenti && r.0.utenti[utente.idUtente] == utente
  {
    if utente.idUtente in a.utenti then (a, false)
    else (a.(utenti := a.utenti[utente.idUtente := utente]), true)
  }

  /** Insertion refuses a present key and changes nothing; otherwise it adds
      exactly that key, last in the listing order, and changes nothing else. */
  lemma EsitoAggiunta(a: Archivio, libro: Libro)
    ensures var (b, ok) := AggiungiLibro(a, libro);
      && (ok <==> libro.isbn !in a.libri)
      && (!ok ==> b == a)
      && (ok ==> b.libri.Keys == a.libri.Keys + {libro.isbn} && b.libri[libro.isbn] == libro
                 && (forall k | k in a.libri :: b.libri[k] == a.libri[k])
                 && b.ordine == a.ordine + [libro.isbn]
                 && b.utenti == a.utenti && b.registro == a.registro)
  {
  }

  /** Adding the same book twice: the second insertion is refused. */
  lemma AggiuntaIdempotente(a: Archivio, libro: Libro)
    ensures var b := AggiungiLibro(a, libro).0;
      AggiungiLibro(b, libro) == (b, false)
  {
  }

  lemma AggiuntaCoerente(a: Archivio, libro: Libro)
    requires Coerente(a)
    requires libro.prestiti == [] && libro.copieDisponibili == libro.copieTotali
    ensures Coerente(AggiungiLibro(a, libro).0)
  {
    var b := AggiungiLibro(a, libro).0;
    if libro.isbn !in a.libri {
      assert LibroCoerente(b.registro, libro);
      forall k ensures k in b.libri <==> k in b.ordine {
        assert k in b.ordine <==> k in a.ordine || k == libro.isbn;
      }
    }
  }

  lemma EsitoRegistrazione(a: Archivio, utente: Utente)
    ensures var (b, ok) := RegistraUtente(a, utente);
      && (ok <==> utente.idUtente !in a.utenti)
      && (!ok ==> b == a)
      && (ok ==> b.utenti.Keys == a.utenti.Keys + {utente.idUtente} && b.utenti[utente.idUtente] == utente
                 && (forall k | k in a.utenti :: b.utenti[k] == a.utenti[k])
                 && b.libri == a.libri && b.ordine == a.ordine && b.registro == a.registro)
  {
  }

  lemma RegistrazioneCoerente(a: Archivio, utente: Utente)
    requires Coerente(a) && utente.libriPresiInPrestito == []
    ensures Coerente(RegistraUtente(a, utente).0)
  {
  }

  // ---------------------------------------------------------------------------
  // Borrowing
  // ---------------------------------------------------------------------------

  /** Lends a copy of `isbn` to `idUtente` at instant `adesso`, in this
      order of checks: unknown member, unknown book, no copy
      left, five records already in the member's list. */
  function PrendiInPrestito(a: Archivio, idUtente: string, isbn: string, adesso: int, giorniPrestito: int): (r: (Archivio, bool))
    ensures r.1 <==> idUtente in a.utenti && isbn in a.libri
                     && a.libri[isbn].copieDisponibili > 0
                     && |a.utenti[idUtente].libriPresiInPrestito| < LimitePrestiti
    ensures !r.1 ==> r.0 == a
  {
    if idUtente !in a.utenti then (a, false)
    else if isbn !in a.libri then (a, false)
    else
      var libro := a.libri[isbn];
      var utente := a.utenti[idUtente];
      if libro.copieDisponibili <= 0 then (a, false)
      else if |utente.libriPresiInPrestito| >= LimitePrestiti then (a, false)
      else (Registrazione(a, idUtente, isbn, adesso, giorniPrestito), true)
  }

  /** A new record for `isbn` goes to the end of the register and of the
      member's and the book's lists, and the book has one copy fewer. */
  function Registrazione(a: Archivio, idUtente: string, isbn: string, adesso: int, giorniPrestito: int): (b: Archivio)
    requires idUtente in a.utenti && isbn in a.libri
    ensures |b.registro| == |a.registro| + 1 && b.registro[..|a.registro|] == a.registro
    ensures b.libri.Keys == a.libri.Keys && b.utenti.Keys == a.utenti.Keys && b.ordine == a.ordine
  {
    var libro := a.libri[isbn];
    var utente := a.utenti[idUtente];
    var nuovo := |a.registro|;
    var prestito := Prestito(isbn, libro.titolo, adesso, Scadenza(adesso, giorniPrestito), false, 0);
    a.(registro := a.registro + [prestito],
       utenti := a.utenti[idUtente := utente.(libriPresiInPrestito := utente.libriPresiInPrestito + [nuovo])],
       libri := a.libri[isbn := libro.(prestiti := libro.prestiti + [nuovo],
                                        copieDisponibili := libro.copieDisponibili - 1)])
  }

  /** When a borrow succeeds and what it changes: one copy fewer of that
      book and one more active loan for that book and that member, all
      other books and members untouched; a refused borrow changes nothing. */
  lemma EsitoPrestito(a: Archivio, idUtente: string, isbn: string, adesso: int, giorniPrestito: int)
    requires Coerente(a)
    ensures var (b, ok) := PrendiInPrestito(a, idUtente, isbn, adesso, giorniPrestito);
      && (ok <==> idUtente in a.utenti && isbn in a.libri
                  && a.libri[isbn].copieDisponibili > 0
                  && |a.utenti[idUtente].libriPresiInPrestito| < LimitePrestiti)
      && (!ok ==> b == a)
      && (ok ==>
            && b.libri.Keys == a.libri.Keys && b.utenti.Keys == a.utenti.Keys && b.ordine == a.ordine
            && b.registro == a.registro + [Prestito(isbn, a.libri[isbn].titolo, adesso, Scadenza(adesso, giorniPrestito), false, 0)]
            && b.libri[isbn] == a.libri[isbn].(copieDisponibili := a.libri[isbn].copieDisponibili - 1,
                                               prestiti := a.libri[isbn].prestiti + [|a.registro|])
            && b.utenti[idUtente] == a.utenti[idUtente].(libriPresiInPrestito := a.utenti[idUtente].libriPresiInPrestito + [|a.registro|])
            && b.libri[isbn].copieDisponibili == a.libri[isbn].copieDisponibili - 1
            && Attivi(b.registro, b.libri[isbn].prestiti) == Attivi(a.registro, a.libri[isbn].prestiti) + 1
            && Attivi(b.registro, b.utenti[idUtente].libriPresiInPrestito)
                 == Attivi(a.registro, a.utenti[idUtente].libriPresiInPrestito) + 1
            && (forall k | k in a.libri && k != isbn :: b.libri[k] == a.libri[k])
            && (forall k | k in a.utenti && k != idUtente :: b.utenti[k] == a.utenti[k]))
  {
    if && idUtente in a.utenti && isbn in a.libri
       && a.libri[isbn].copieDisponibili > 0
       && |a.utenti[idUtente].libriPresiInPrestito| < LimitePrestiti
    {
      assert LibroCoerente(a.registro, a.libri[isbn]);
      assert UtenteCoerente(a.registro, a.utenti[idUtente]);
      EsitoRegistrazionePrestito(a, idUtente, isbn, adesso, giorniPrestito);
    }
  }

  lemma EsitoRegistrazionePrestito(a: Archivio, idUtente: string, isbn: string, adesso: int, giorniPrestito: int)
    requires idUtente in a.utenti && isbn in a.libri
    requires IndiciValidi(a.libri[isbn].prestiti, |a.registro|)
    requires IndiciValidi(a.utenti[idUtente].libriPresiInPrestito, |a.registro|)
    ensures var b := Registrazione(a, idUtente, isbn, adesso, giorniPrestito);
      && b.libri.Keys == a.libri.Keys && b.utenti.Keys == a.utenti.Keys && b.ordine == a.ordine
      && b.registro == a.registro + [Prestito(isbn, a.libri[isbn].titolo, adesso, Scadenza(adesso, giorniPrestito), false, 0)]
      && b.libri[isbn] == a.libri[isbn].(copieDisponibili := a.libri[isbn].copieDisponibili - 1,
                                         prestiti := a.libri[isbn].prestiti + [|a.registro|])
      && b.utenti[idUtente] == a.utenti[idUtente].(libriPresiInPrestito := a.utenti[idUtente].libriPresiInPrestito + [|a.registro|])
      && b.libri[isbn].copieDisponibili == a.libri[isbn].copieDisponibili - 1
      && Attivi(b.registro, b.libri[isbn].prestiti) == Attivi(a.registro, a.libri[isbn].prestiti) + 1
      && Attivi(b.registro, b.utenti[idUtente].libriPresiInPrestito)
           == Attivi(a.registro, a.utenti[idUtente].libriPresiInPrestito) + 1
      && (forall k | k in a.libri && k != isbn :: b.libri[k] == a.libri[k])
      && (forall k | k in a.utenti && k != idUtente :: b.utenti[k] == a.utenti[k])
  {
    var b := Registrazione(a, idUtente, isbn, adesso, giorniPrestito);
    var p := b.registro[|a.registro|];
    AttiviAggiunta(a.registro, a.libri[isbn].prestiti, p);
    AttiviAggiunta(a.registro, a.utenti[idUtente].libriPresiInPrestito, p);
  }

  /** The new record: for that book, with its title, made now, due the loan
      day plus the period, not returned and with no fine. */
  lemma NuovoPrestitoRegistrato(a: Archivio, idUtente: string, isbn: string, adesso: int, giorniPrestito: int)
    requires PrendiInPrestito(a, idUtente, isbn, adesso, giorniPrestito).1
    ensures var b := PrendiInPrestito(a, idUtente, isbn, adesso, giorniPrestito).0;
      && |b.registro| == |a.registro| + 1
      && b.registro[..|a.registro|] == a.registro
      && var p := b.registro[|a.registro|];
         && p.isbn == isbn && p.titolo == a.libri[isbn].titolo && p.dataPrestito == adesso
         && p.dataScadenza == Giorno(adesso) + giorniPrestito
         && !p.restituito && p.multa == 0
  {
  }

  /** The shape of a successful borrow: the member's list and the book's
      list gain the new index, the book has one copy fewer, and every other
      book is untouched. */
  lemma PrestitoRiuscito(a: Archivio, idUtente: string, isbn: string, adesso: int, giorniPrestito: int)
    requires idUtente in a.utenti && isbn in a.libri
    requires a.libri[isbn].copieDisponibili > 0
    requires |a.utenti[idUtente].libriPresiInPrestito| < LimitePrestiti
    ensures var b := PrendiInPrestito(a, idUtente, isbn, adesso, giorniPrestito).0;
      && |b.registro| == |a.registro| + 1
      && b.utenti.Keys == a.utenti.Keys
      && b.utenti[idUtente].libriPresiInPrestito == a.utenti[idUtente].libriPresiInPrestito + [|a.registro|]
      && b.registro[|a.registro|] == Prestito(isbn, a.libri[isbn].titolo, adesso, Scadenza(adesso, giorniPrestito), false, 0)
      && b.libri.Keys == a.libri.Keys
      && b.libri[isbn].copieDisponibili == a.libri[isbn].copieDisponibili - 1
      && b.libri[isbn] == a.libri[isbn].(copieDisponibili := a.libri[isbn].copieDisponibili - 1,
                                         prestiti := a.libri[isbn].prestiti + [|a.registro|])
      && (forall k | k in a.libri && k != isbn :: b.libri[k] == a.libri[k])
  {
  }

  lemma PrestitoCoerente(a: Archivio, idUtente: string, isbn: string, adesso: int, giorniPrestito: int)
    requires Coerente(a)
    ensures Coerente(PrendiInPrestito(a, idUtente, isbn, adesso, giorniPrestito).0)
  {
    if && idUtente in a.utenti && isbn in a.libri
       && a.libri[isbn].copieDisponibili > 0
       && |a.utenti[idUtente].libriPresiInPrestito| < LimitePrestiti
    {
      PrestitoRiuscitoCoerente(a, idUtente, isbn, adesso, giorniPrestito);
    }
  }

  lemma PrestitoRiuscitoCoerente(a: Archivio, idUtente: string, isbn: string, adesso: int, giorniPrestito: int)
    requires Coerente(a) && idUtente in a.utenti && isbn in a.libri
    requires a.libri[isbn].copieDisponibili > 0
    requires |a.utenti[idUtente].libriPresiInPrestito| < LimitePrestiti
    ensures Coerente(Registrazione(a, idUtente, isbn, adesso, giorniPrestito))
  {
    var b := Registrazione(a, idUtente, isbn, adesso, giorniPrestito);
    var libro := a.libri[isbn];
    var p := Prestito(isbn, libro.titolo, adesso, Scadenza(adesso, giorniPrestito), false, 0);
    assert LibriCoerenti(b.libri, b.registro) by {
      LibriDopoPrestito(a.libri, a.registro, isbn, p);
    }
    assert UtentiCoerenti(b.utenti, b.registro) by {
      UtentiDopoPrestito(a.utenti, a.registro, idUtente, p);
    }
    assert RegistroCoerente(b.libri, b.registro) by {
      RegistroDopoPrestito(a.libri, a.registro, isbn, p, libro.copieDisponibili - 1);
    }
    assert OrdineCoerente(b.libri, b.ordine) by {
      assert forall k :: k in b.libri <==> k in a.libri;
    }
  }

  /** The borrow limit counts every record of the member's list, returned
      ones included: after five loans a member can never borrow again. */
  lemma LimiteSullaStoria(a: Archivio, idUtente: string, isbn: string, adesso: int, giorniPrestito: int)
    requires idUtente in a.utenti && |a.utenti[idUtente].libriPresiInPrestito| >= LimitePrestiti
    ensures PrendiInPrestito(a, idUtente, isbn, adesso, giorniPrestito) == (a, false)
  {
  }

  // ---------------------------------------------------------------------------
  // Returning
  // ---------------------------------------------------------------------------

  /** Takes back `isbn` from `idUtente` at instant `adesso`: the first record
      of the member's list for that book and still active is closed with
      its fine, and the book gets its copy back. */
  function RestituisciLibro(a: Archivio, idUtente: string, isbn: string, adesso: int, tariffa: int): (r: (Archivio, Option<int>))
    requires Coerente(a)
    ensures r.1 == None ==> r.0 == a
    ensures r.1 != None ==> idUtente in a.utenti && isbn in a.libri
    ensures r.0.utenti == a.utenti && r.0.ordine == a.ordine && r.0.libri.Keys == a.libri.Keys
  {
    if idUtente !in a.utenti then (a, None)
    else
      var lista := a.utenti[idUtente].libriPresiInPrestito;
      assert UtenteCoerente(a.registro, a.utenti[idUtente]);
      match PrimoAttivo(a.registro, lista, isbn)
      case None => (a, None)
      case Some(pos) =>
        var i := lista[pos];
        var prestito := a.registro[i];
        var multa := Multa(adesso, prestito.dataScadenza, tariffa);
        (Chiusura(a, i, isbn, multa), Some(multa))
  }

  /** Record i is marked returned with its fine, and book `isbn` gets its
      copy back. */
  function Chiusura(a: Archivio, i: nat, isbn: string, multa: int): (c: Archivio)
    requires i < |a.registro| && isbn in a.libri
    ensures |c.registro| == |a.registro| && c.registro[i].restituito && c.registro[i].multa == multa
    ensures forall j | 0 <= j < |a.registro| && j != i :: c.registro[j] == a.registro[j]
    ensures c.utenti == a.utenti && c.ordine == a.ordine && c.libri.Keys == a.libri.Keys
  {
    var libro := a.libri[isbn];
    a.(registro := a.registro[i := a.registro[i].(restituito := true, multa := multa)],
       libri := a.libri[isbn := libro.(copieDisponibili := libro.copieDisponibili + 1)])
  }

  /** A return for an unknown member, or one with no active record for the
      book in the list, changes nothing and yields None. */
  lemma RestituzioneRifiutata(a: Archivio, idUtente: string, isbn: string, adesso: int, tariffa: int)
    requires Coerente(a)
    requires idUtente !in a.utenti || PrimoAttivo(a.registro, a.utenti[idUtente].libriPresiInPrestito, isbn) == None
    ensures RestituisciLibro(a, idUtente, isbn, adesso, tariffa) == (a, None)
  {
  }

  /** A return that finds record `i` at position `pos` of the member's list
      closes it with its fine and gives the book its copy back. */
  lemma RestituzioneTrovata(a: Archivio, idUtente: string, isbn: string, adesso: int, tariffa: int, pos: nat)
    requires Coerente(a) && idUtente in a.utenti
    requires UtenteCoerente(a.registro, a.utenti[idUtente])
    requires PrimoAttivo(a.registro, a.utenti[idUtente].libriPresiInPrestito, isbn) == Some(pos)
    ensures isbn in a.libri
    ensures var i := a.utenti[idUtente].libriPresiInPrestito[pos];
      var multa := Multa(adesso, a.registro[i].dataScadenza, tariffa);
      RestituisciLibro(a, idUtente, isbn, adesso, tariffa) == (Chiusura(a, i, isbn, multa), Some(multa))
  {
  }

  /** What a return changes: refused (None) for an unknown member or when no
      active record for that book is in the member's list, with nothing
      changed; otherwise the fine for the record's due day, the book has one
      copy more and one active loan fewer, and nothing else changes. */
  lemma EsitoRestituzione(a: Archivio, idUtente: string, isbn: string, adesso: int, tariffa: int)
    requires Coerente(a)
    ensures var (b, multa) := RestituisciLibro(a, idUtente, isbn, adesso, tariffa);
      && (multa == None <==>
            idUtente !in a.utenti
            || forall j | 0 <= j < |a.utenti[idUtente].libriPresiInPrestito| ::
                 !Corrisponde(a.registro[a.utenti[idUtente].libriPresiInPrestito[j]], isbn))
      && (multa == None ==> b == a)
      && (multa != None ==>
            && isbn in a.libri
            && b.libri.Keys == a.libri.Keys && b.utenti == a.utenti && b.ordine == a.ordine
            && (var lista := a.utenti[idUtente].libriPresiInPrestito;
                var i := lista[PrimoAttivo(a.registro, lista, isbn).value];
                && multa.value == Multa(adesso, a.registro[i].dataScadenza, tariffa)
                && b.registro == a.registro[i := a.registro[i].(restituito := true, multa := multa.value)])
            && b.libri[isbn] == a.libri[isbn].(copieDisponibili := a.libri[isbn].copieDisponibili + 1)
            && Attivi(b.registro, b.libri[isbn].prestiti) == Attivi(a.registro, a.libri[isbn].prestiti) - 1
            && (forall k | k in a.libri && k != isbn :: b.libri[k] == a.libri[k]))
  {
    if idUtente !in a.utenti {
      RestituzioneRifiutata(a, idUtente, isbn, adesso, tariffa);
    } else {
      var lista := a.utenti[idUtente].libriPresiInPrestito;
      assert UtenteCoerente(a.registro, a.utenti[idUtente]);
      var r := PrimoAttivo(a.registro, lista, isbn);
      if r.None? {
        RestituzioneRifiutata(a, idUtente, isbn, adesso, tariffa);
      } else {
        RestituzioneTrovata(a, idUtente, isbn, adesso, tariffa, r.value);
        var i := lista[r.value];
        var m := Multa(adesso, a.registro[i].dataScadenza, tariffa);
        assert LibroCoerente(a.registro, a.libri[isbn]) && a.registro[i].isbn == isbn;
        assert i in a.libri[isbn].prestiti by {
          assert RegistroCoerente(a.libri, a.registro);
        }
        LibriDopoChiusura(a, i, isbn, m);
        ChiusuraAttivi(a, i, isbn, m);
      }
    }
  }

  /** Closing an active record of book `isbn` takes one off its active count. */
  lemma ChiusuraAttivi(a: Archivio, i: nat, isbn: string, multa: int)
    requires i < |a.registro| && isbn in a.libri && !a.registro[i].restituito
    requires LibroCoerente(a.registro, a.libri[isbn]) && i in a.libri[isbn].prestiti
    ensures var c := Chiusura(a, i, isbn, multa);
      Attivi(c.registro, c.libri[isbn].prestiti) == Attivi(a.registro, a.libri[isbn].prestiti) - 1
  {
    var c := Chiusura(a, i, isbn, multa);
    AttiviRestituzione(a.registro, a.libri[isbn].prestiti, i, c.registro[i]);
  }

  lemma RestituzioneCoerente(a: Archivio, idUtente: string, isbn: string, adesso: int, tariffa: int)
    requires Coerente(a)
    ensures Coerente(RestituisciLibro(a, idUtente, isbn, adesso, tariffa).0)
  {
    if idUtente !in a.utenti {
      RestituzioneRifiutata(a, idUtente, isbn, adesso, tariffa);
    } else {
      var lista := a.utenti[idUtente].libriPresiInPrestito;
      assert UtenteCoerente(a.registro, a.utenti[idUtente]);
      var r := PrimoAttivo(a.registro, lista, isbn);
      if r.None? {
        RestituzioneRifiutata(a, idUtente, isbn, adesso, tariffa);
      } else {
        RestituzioneTrovata(a, idUtente, isbn, adesso, tariffa, r.value);
        var i := lista[r.value];
        assert i in a.libri[isbn].prestiti by { assert RegistroCoerente(a.libri, a.registro); }
        ChiusuraCoerente(a, i, isbn, Multa(adesso, a.registro[i].dataScadenza, tariffa));
      }
    }
  }

  /** Closing an active record of a book and giving the copy back keeps the
      archive coherent. */
  lemma ChiusuraCoerente(a: Archivio, i: nat, isbn: string, multa: int)
    requires Coerente(a) && i < |a.registro| && isbn in a.libri
    requires a.registro[i].isbn == isbn && !a.registro[i].restituito && i in a.libri[isbn].prestiti
    ensures Coerente(Chiusura(a, i, isbn, multa))
  {
    var c := Chiusura(a, i, isbn, multa);
    ChiusuraLibri(a, i, isbn, multa);
    ChiusuraRegistro(a, i, isbn, multa);
    UtentiStessaLunghezza(a.utenti, a.registro, c.registro);
    OrdineStesseChiavi(a.libri, c.libri, a.ordine);
  }

  /** Closing active record i of book `isbn` and giving the copy back keeps
      every book coherent. */
  lemma ChiusuraLibri(a: Archivio, i: nat, isbn: string, multa: int)
    requires LibriCoerenti(a.libri, a.registro) && i < |a.registro| && isbn in a.libri
    requires a.registro[i].isbn == isbn && !a.registro[i].restituito && i in a.libri[isbn].prestiti
    ensures var c := Chiusura(a, i, isbn, multa); LibriCoerenti(c.libri, c.registro)
  {
    var c := Chiusura(a, i, isbn, multa);
    var q := a.registro[i].(restituito := true, multa := multa);
    assert c.registro == a.registro[i := q];
    forall k | k in c.libri
      ensures c.libri[k].isbn == k && LibroCoerente(c.registro, c.libri[k])
    {
      if k == isbn {
        LibroRestituito(a.registro, i, q, a.libri[isbn]);
      } else {
        LibroNonCoinvolto(a.registro, i, q, a.libri[k]);
      }
    }
  }

  /** Closing a record leaves it listed where it was. */
  lemma ChiusuraRegistro(a: Archivio, i: nat, isbn: string, multa: int)
    requires RegistroCoerente(a.libri, a.registro) && i < |a.registro| && isbn in a.libri
    requires a.registro[i].isbn == isbn
    ensures var c := Chiusura(a, i, isbn, multa); RegistroCoerente(c.libri, c.registro)
  {
    var c := Chiusura(a, i, isbn, multa);
    forall j | 0 <= j < |c.registro|
      ensures c.registro[j].isbn in c.libri && j in c.libri[c.registro[j].isbn].prestiti
    {
      assert c.registro[j].isbn == a.registro[j].isbn;
    }
  }

  /** Members only depend on the length of the register. */
  lemma UtentiStessaLunghezza(utenti: map<string, Utente>, registro: seq<Prestito>, nuovo: seq<Prestito>)
    requires UtentiCoerenti(utenti, registro) && |nuovo| == |registro|
    ensures UtentiCoerenti(utenti, nuovo)
  {
    forall k | k in utenti ensures UtenteCoerente(nuovo, utenti[k]) {
      assert UtenteCoerente(registro, utenti[k]);
    }
  }

  /** The listing order only depends on which ISBNs the catalog holds. */
  lemma OrdineStesseChiavi(libri: map<string, Libro>, nuovi: map<string, Libro>, ordine: seq<string>)
    requires OrdineCoerente(libri, ordine) && nuovi.Keys == libri.Keys
    ensures OrdineCoerente(nuovi, ordine)
  {
    assert forall k :: k in nuovi <==> k in libri;
  }

  /** Returning a book right after borrowing it, when the member had no
      other active loan of it, closes the record just made. */
  lemma RestituzioneDelNuovoPrestito(a: Archivio, idUtente: string, isbn: string,
                                     prestitoIl: int, resoIl: int, giorniPrestito: int, tariffa: int)
    requires Coerente(a) && idUtente in a.utenti && isbn in a.libri
    requires a.libri[isbn].copieDisponibili > 0
    requires |a.utenti[idUtente].libriPresiInPrestito| < LimitePrestiti
    requires forall j | 0 <= j < |a.utenti[idUtente].libriPresiInPrestito| ::
               !Corrisponde(a.registro[a.utenti[idUtente].libriPresiInPrestito[j]], isbn)
    ensures (PrestitoCoerente(a, idUtente, isbn, prestitoIl, giorniPrestito);
      var b := PrendiInPrestito(a, idUtente, isbn, prestitoIl, giorniPrestito).0;
      var c := RestituisciLibro(b, idUtente, isbn, resoIl, tariffa);
      var multa := Multa(resoIl, Scadenza(prestitoIl, giorniPrestito), tariffa);
      && c.1 == Some(multa)
      && c.0.registro == a.registro + [Prestito(isbn, a.libri[isbn].titolo, prestitoIl, Scadenza(prestitoIl, giorniPrestito), true, multa)])
  {
    PrestitoCoerente(a, idUtente, isbn, prestitoIl, giorniPrestito);
    var b := PrendiInPrestito(a, idUtente, isbn, prestitoIl, giorniPrestito).0;
    var lista := a.utenti[idUtente].libriPresiInPrestito;
    var p := b.registro[|a.registro|];
    assert b.registro == a.registro + [p];
    assert b.utenti[idUtente].libriPresiInPrestito == lista + [|a.registro|];
    assert UtenteCoerente(a.registro, a.utenti[idUtente]);
    PrimoAttivoInCoda(a.registro, lista, isbn, p);
    assert PrimoAttivo(b.registro, b.utenti[idUtente].libriPresiInPrestito, isbn) == Some(|lista|);
    var c := RestituisciLibro(b, idUtente, isbn, resoIl, tariffa);
    var multa := Multa(resoIl, p.dataScadenza, tariffa);
    assert c.1 == Some(multa);
    var chiuso := Prestito(isbn, a.libri[isbn].titolo, prestitoIl, Scadenza(prestitoIl, giorniPrestito), true, multa);
    assert c.0.registro == b.registro[|a.registro| := chiuso];
    UltimoSostituito(a.registro, p, chiuso);
  }

  /** A borrow followed by the return of the same book by the same member
      leaves every book's available copies as they were. The return closes
      the member's first active record of that book, which may be an older
      one, but any such record gives the copy back to the same book. */
  lemma PrestitoPoiRestituzione(a: Archivio, idUtente: string, isbn: string,
                                prestitoIl: int, resoIl: int, giorniPrestito: int, tariffa: int)
    requires Coerente(a) && idUtente in a.utenti && isbn in a.libri
    requires a.libri[isbn].copieDisponibili > 0
    requires |a.utenti[idUtente].libriPresiInPrestito| < LimitePrestiti
    ensures (PrestitoCoerente(a, idUtente, isbn, prestitoIl, giorniPrestito);
      var b := PrendiInPrestito(a, idUtente, isbn, prestitoIl, giorniPrestito).0;
      var c := RestituisciLibro(b, idUtente, isbn, resoIl, tariffa);
      && c.1 != None
      && c.0.libri.Keys == a.libri.Keys
      && c.0.libri[isbn].copieDisponibili == a.libri[isbn].copieDisponibili
      && (forall k | k in a.libri && k != isbn :: c.0.libri[k] == a.libri[k]))
  {
    PrestitoCoerente(a, idUtente, isbn, prestitoIl, giorniPrestito);
    PrestitoRiuscito(a, idUtente, isbn, prestitoIl, giorniPrestito);
    var b := PrendiInPrestito(a, idUtente, isbn, prestitoIl, giorniPrestito).0;
    var lista := a.utenti[idUtente].libriPresiInPrestito;
    var nuova := b.utenti[idUtente].libriPresiInPrestito;
    assert UtenteCoerente(b.registro, b.utenti[idUtente]);
    var r := PrimoAttivo(b.registro, nuova, isbn);
    assert r.Some? by {
      assert nuova[|lista|] == |a.registro|;
      assert Corrisponde(b.registro[nuova[|lista|]], isbn);
    }
    RestituzioneTrovata(b, idUtente, isbn, resoIl, tariffa, r.value);
    var i := nuova[r.value];
    LibriDopoChiusura(b, i, isbn, Multa(resoIl, b.registro[i].dataScadenza, tariffa));
  }

  /** Closing a record touches no book but `isbn`, which gets one copy back. */
  lemma LibriDopoChiusura(a: Archivio, i: nat, isbn: string, multa: int)
    requires i < |a.registro| && isbn in a.libri
    ensures var c := Chiusura(a, i, isbn, multa);
      && c.libri.Keys == a.libri.Keys
      && c.libri[isbn].copieDisponibili == a.libri[isbn].copieDisponibili + 1
      && (forall k | k in a.libri && k != isbn :: c.libri[k] == a.libri[k])
  {
  }

  // ---------------------------------------------------------------------------
  // Reports
  // ---------------------------------------------------------------------------

  /** One line of the availability listing. */
  datatype VoceCatalogo = VoceCatalogo(
    titolo: string, autore: string, anno: int,
    disponibili: int, totali: int, disponibile: bool)

  function Voce(l: Libro): (v: VoceCatalogo)
    ensures v.titolo == l.titolo && v.autore == l.autore && v.anno == l.anno
    ensures v.disponibili == l.copieDisponibili && v.totali == l.copieTotali
    ensures v.disponibile <==> l.copieDisponibili > 0
  {
    VoceCatalogo(l.titolo, l.autore, l.anno, l.copieDisponibili, l.copieTotali, l.copieDisponibili > 0)
  }

  /** The availability listing: one line per book, in the order the books
      were added; empty exactly when the catalog is. */
  function LibriDisponibili(a: Archivio): (r: seq<VoceCatalogo>)
    requires OrdineCoerente(a.libri, a.ordine)
    ensures |r| == |a.ordine|
    ensures forall i | 0 <= i < |r| :: r[i] == Voce(a.libri[a.ordine[i]])
    ensures forall i | 0 <= i < |r| ::
      && r[i].titolo == a.libri[a.ordine[i]].titolo
      && r[i].disponibili == a.libri[a.ordine[i]].copieDisponibili
      && r[i].totali == a.libri[a.ordine[i]].copieTotali
      && (r[i].disponibile <==> r[i].disponibili > 0)
    ensures forall k | k in a.libri :: Voce(a.libri[k]) in r
    ensures r == [] <==> a.libri == map[]
  {
    assert ChiaviNote(a.libri, a.ordine);
    var r := Voci(a.libri, a.ordine);
    assert forall k | k in a.libri :: Voce(a.libri[k]) in r by {
      forall k | k in a.libri ensures Voce(a.libri[k]) in r {
        var i :| 0 <= i < |a.ordine| && a.ordine[i] == k;
        assert r[i] == Voce(a.libri[k]);
      }
    }
    assert a.ordine == [] ==> a.libri == map[] by {
      if a.ordine == [] {
        assert a.libri.Keys == {};
      }
    }
    assert a.ordine != [] ==> a.ordine[0] in a.libri;
    r
  }

  /** The lines of the listed books, in the order of the list. */
  function Voci(libri: map<string, Libro>, chiavi: seq<string>): (r: seq<VoceCatalogo>)
    requires ChiaviNote(libri, chiavi)
    ensures |r| == |chiavi|
    ensures forall i | 0 <= i < |r| :: r[i] == Voce(libri[chiavi[i]])
  {
    if chiavi == [] then [] else [Voce(libri[chiavi[0]])] + Voci(libri, chiavi[1..])
  }

  /** One line of a member's loan report. */
  datatype VoceStato = VoceStato(titolo: string, giorniRimanenti: int, stato: Stato)

  function VoceDi(p: Prestito, adesso: int): (v: VoceStato)
    ensures v.titolo == p.titolo && v.giorniRimanenti == GiorniRimanenti(p.dataScadenza, adesso)
    ensures v.stato == if adesso > Mezzanotte(p.dataScadenza) then InRitardo
                       else if adesso > Mezzanotte(p.dataScadenza - 4) then InScadenza
                       else Regolare
  {
    var giorni := GiorniRimanenti(p.dataScadenza, adesso);
    ClassificaIstante(p.dataScadenza, adesso);
    VoceStato(p.titolo, giorni, Classifica(giorni))
  }

  /** A member's loan report: None for an unknown member; otherwise one line
      per active record of the member, in the order of the loans, at most
      five, each with its days left and their classification. */
  function PrestitiUtente(a: Archivio, idUtente: string, adesso: int): (r: Option<seq<VoceStato>>)
    requires Coerente(a)
    ensures r == None <==> idUtente !in a.utenti
    ensures r != None ==>
      var attivi := PrestitiAttivi(a.registro, a.utenti[idUtente].libriPresiInPrestito);
      && |r.value| == |attivi| == Attivi(a.registro, a.utenti[idUtente].libriPresiInPrestito)
      && Crescenti(attivi)
      && |r.value| <= LimitePrestiti
      && forall k | 0 <= k < |r.value| ::
           var p := a.registro[attivi[k]];
           && !p.restituito
           && r.value[k].titolo == p.titolo
           && r.value[k].giorniRimanenti == GiorniRimanenti(p.dataScadenza, adesso)
           && r.value[k].stato == Classifica(r.value[k].giorniRimanenti)
  {
    if idUtente !in a.utenti then None
    else
      assert UtenteCoerente(a.registro, a.utenti[idUtente]);
      var attivi := PrestitiAttivi(a.registro, a.utenti[idUtente].libriPresiInPrestito);
      Some(seq(|attivi|, k requires 0 <= k < |attivi| => VoceDi(a.registro[attivi[k]], adesso)))
  }

  /** The aggregates of the statistics report. */
  datatype Statistiche = Statistiche(
    titoli: nat, copieTotali: int, copieDisponibili: int, copieInPrestito: int,
    utentiRegistrati: nat, tassoUtilizzo: real)

  predicate ChiaviNote(libri: map<string, Libro>, chiavi: seq<string>)
  {
    forall j | 0 <= j < |chiavi| :: chiavi[j] in libri
  }

  function SommaTotali(libri: map<string, Libro>, chiavi: seq<string>): (n: int)
    requires ChiaviNote(libri, chiavi)
    ensures (forall j | 0 <= j < |chiavi| :: libri[chiavi[j]].copieTotali >= 0) ==> n >= 0
  {
    if chiavi == [] then 0 else libri[chiavi[0]].copieTotali + SommaTotali(libri, chiavi[1..])
  }

  function SommaDisponibili(libri: map<string, Libro>, chiavi: seq<string>): (n: int)
    requires ChiaviNote(libri, chiavi)
    ensures (forall j | 0 <= j < |chiavi| :: libri[chiavi[j]].copieDisponibili >= 0) ==> n >= 0
  {
    if chiavi == [] then 0 else libri[chiavi[0]].copieDisponibili + SommaDisponibili(libri, chiavi[1..])
  }

  /** Active records, summed over the listed books. */
  function SommaAttivi(registro: seq<Prestito>, libri: map<string, Libro>, chiavi: seq<string>): nat
    requires ChiaviNote(libri, chiavi)
    requires forall k | k in libri :: IndiciValidi(libri[k].prestiti, |registro|)
  {
    if chiavi == [] then 0
    else Attivi(registro, libri[chiavi[0]].prestiti) + SommaAttivi(registro, libri, chiavi[1..])
  }

  /** Copies out on loan, summed over books, are the books' active records. */
  lemma {:induction false} SommeCoerenti(a: Archivio, chiavi: seq<string>)
    requires Coerente(a) && ChiaviNote(a.libri, chiavi)
    ensures SommaTotali(a.libri, chiavi) - SommaDisponibili(a.libri, chiavi)
            == SommaAttivi(a.registro, a.libri, chiavi)
    decreases |chiavi|
  {
    if chiavi != [] {
      assert LibroCoerente(a.registro, a.libri[chiavi[0]]);
      SommeCoerenti(a, chiavi[1..]);
    }
  }

  /** With no book of negative size, no more copies are out than exist. */
  lemma {:induction false} DisponibiliNonNegative(a: Archivio, chiavi: seq<string>)
    requires Coerente(a) && ChiaviNote(a.libri, chiavi)
    requires forall k | k in a.libri :: a.libri[k].copieTotali >= 0
    ensures SommaDisponibili(a.libri, chiavi) >= 0
    decreases |chiavi|
  {
    if chiavi != [] {
      CopieNeiLimiti(a, chiavi[0]);
      DisponibiliNonNegative(a, chiavi[1..]);
    }
  }

  /** The statistics report. Copies on loan are total minus available, and
      equal the active records of all books; the utilisation rate is only
      computed when there are copies at all, and is 0 otherwise. */
  function GeneraStatistiche(a: Archivio): (s: Statistiche)
    requires Coerente(a)
    ensures s.titoli == |a.libri| && s.utentiRegistrati == |a.utenti|
    ensures s.copieInPrestito == s.copieTotali - s.copieDisponibili
    ensures s.copieInPrestito == SommaAttivi(a.registro, a.libri, a.ordine) >= 0
    ensures s.copieTotali <= 0 ==> s.tassoUtilizzo == 0.0
    ensures s.copieTotali == SommaTotali(a.libri, a.ordine)
    ensures s.copieDisponibili == SommaDisponibili(a.libri, a.ordine)
    ensures s.tassoUtilizzo == Tasso(s.copieInPrestito, s.copieTotali)
  {
    assert ChiaviNote(a.libri, a.ordine);
    SommeCoerenti(a, a.ordine);
    var totale := SommaTotali(a.libri, a.ordine);
    var disponibili := SommaDisponibili(a.libri, a.ordine);
    var inPrestito := totale - disponibili;
    Statistiche(
      |a.libri|, totale, disponibili, inPrestito, |a.utenti|,
      Tasso(inPrestito, totale))
  }

  /** Copies on loan as a percentage of all copies; 0 when there are none. */
  function Tasso(inPrestito: int, totale: int): (r: real)
    ensures totale <= 0 ==> r == 0.0
    ensures 0 <= inPrestito <= totale ==> 0.0 <= r <= 100.0
  {
    if totale > 0 then
      var r := inPrestito as real / totale as real * 100.0;
      if 0 <= inPrestito <= totale then Percentuale(inPrestito as real, totale as real); r else r
    else 0.0
  }

  /** With no book of negative size, the utilisation rate is a percentage. */
  lemma TassoLimitato(a: Archivio)
    requires Coerente(a)
    requires forall k | k in a.libri :: a.libri[k].copieTotali >= 0
    ensures 0.0 <= GeneraStatistiche(a).tassoUtilizzo <= 100.0
  {
    assert ChiaviNote(a.libri, a.ordine);
    DisponibiliNonNegative(a, a.ordine);
  }

  lemma Percentuale(parte: real, tutto: real)
    requires 0.0 <= parte <= tutto && tutto > 0.0
    ensures 0.0 <= parte / tutto * 100.0 <= 100.0
  {
    assert parte / tutto <= 1.0;
  }
}
