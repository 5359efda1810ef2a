/**
 * The library object: its catalogs and its register are fields that the
 * four operations update in place. Each operation is proved to do exactly
 * what the corresponding function of module Catalogo does to the library's
 * state, and to keep the invariant `Catalogo.Coerente`.
 */
module GestioneBiblioteca {
  import opened Registro
  import C = Catalogo

  class Biblioteca {
    const nome: string
    /** Loan period, in days. */
    const giorniPrestito: int
    /** Fine per late day, in cents. */
    const multaGiornaliera: int
    /** Catalog, by ISBN. */
    var libri: map<string, C.Libro>
    /** The catalog's keys in insertion order, the order its listings follow. */
    var ordineLibri: seq<string>
    /** Registered members, by member id. */
    var utenti: map<string, C.Utente>
    /** Every loan record made so far, in creation order. */
    var registro: seq<Prestito>

    /** The library's state as a value. */
    function Stato(): C.Archivio
      reads this
    {
      C.Archivio(libri, ordineLibri, utenti, registro)
    }

    ghost predicate Valid()
      reads this
    {
      C.Coerente(Stato())
    }

    /** A new library: empty catalogs, 14-day loans, 2.00 EUR per late day. */
    constructor (nome: string)
      ensures Valid()
      ensures this.nome == nome
      ensures giorniPrestito == C.GiorniPrestitoPredefiniti && multaGiornaliera == C.MultaGiornalieraPredefinita
      ensures Stato() == C.ArchivioVuoto
    {
      this.nome := nome;
      giorniPrestito := C.GiorniPrestitoPredefiniti;
      multaGiornaliera := C.MultaGiornalieraPredefinita;
      libri := map[];
      ordineLibri := [];
      utenti := map[];
      registro := [];
    }

    /** Adds a book (as the book constructor makes it) unless its ISBN is
        already in the catalog. */
    method AggiungiLibro(libro: C.Libro) returns (ok: bool)
      requires Valid()
      requires libro.prestiti == [] && libro.copieDisponibili == libro.copieTotali
      modifies this
      ensures Valid()
      ensures (Stato(), ok) == C.AggiungiLibro(old(Stato()), libro)
    {
      C.AggiuntaCoerente(Stato(), libro);
      if libro.isbn in libri {
        return false;
      }
      libri := libri[libro.isbn := libro];
      ordineLibri := ordineLibri + [libro.isbn];
      ok := true;
    }

    /** Registers a member (as the member constructor makes it) unless the
        member id is already taken. */
    method RegistraUtente(utente: C.Utente) returns (ok: bool)
      requires Valid()
      requires utente.libriPresiInPrestito == []
      modifies this
      ensures Valid()
      ensures (Stato(), ok) == C.RegistraUtente(old(Stato()), utente)
    {
      C.RegistrazioneCoerente(Stato(), utente);
      if utente.idUtente in utenti {
        return false;
      }
      utenti := utenti[utente.idUtente := utente];
      ok := true;
    }

    /** Lends a copy of book `isbn` to member `idUtente` at instant `adesso`. */
    method PrendiInPrestito(idUtente: string, isbn: string, adesso: int) returns (ok: bool)
      requires Valid()
      modifies this
      ensures Valid()
      ensures (Stato(), ok) == C.PrendiInPrestito(old(Stato()), idUtente, isbn, adesso, giorniPrestito)
    {
      C.PrestitoCoerente(Stato(), idUtente, isbn, adesso, giorniPrestito);
      if idUtente !in utenti {
        return false;
      }
      if isbn !in libri {
        return false;
      }
      if libri[isbn].copieDisponibili <= 0 {
        return false;
      }
      if |utenti[idUtente].libriPresiInPrestito| >= C.LimitePrestiti {
        return false;
      }
      RegistraPrestito(idUtente, isbn, adesso);
      ok := true;
    }

    /** The successful half of a loan: the new record goes to the end of the
        register and of both lists, and the book has one copy fewer. */
    method RegistraPrestito(idUtente: string, isbn: string, adesso: int)
      requires idUtente in utenti && isbn in libri
      requires libri[isbn].copieDisponibili > 0
      requires |utenti[idUtente].libriPresiInPrestito| < C.LimitePrestiti
      modifies this
      ensures (Stato(), true) == C.PrendiInPrestito(old(Stato()), idUtente, isbn, adesso, giorniPrestito)
    {
      var libro := libri[isbn];
      var utente := utenti[idUtente];
      var nuovo := |registro|;
      registro := registro + [Prestito(isbn, libro.titolo, adesso, Scadenza(adesso, giorniPrestito), false, 0)];
      utenti := utenti[idUtente := utente.(libriPresiInPrestito := utente.libriPresiInPrestito + [nuovo])];
      libri := libri[isbn := libro.(prestiti := libro.prestiti + [nuovo],
                                   copieDisponibili := libro.copieDisponibili - 1)];
    }

    /** Takes back book `isbn` from member `idUtente` at instant `adesso`,
        searching the member's list for the first active record of it. */
    method RestituisciLibro(idUtente: string, isbn: string, adesso: int) returns (multa: Option<int>)
      requires Valid()
      modifies this
      ensures Valid()
      ensures (Stato(), multa) == C.RestituisciLibro(old(Stato()), idUtente, isbn, adesso, multaGiornaliera)
    {
      C.RestituzioneCoerente(Stato(), idUtente, isbn, adesso, multaGiornaliera);
      if idUtente !in utenti {
        C.RestituzioneRifiutata(Stato(), idUtente, isbn, adesso, multaGiornaliera);
        return None;
      }
      var utente := utenti[idUtente];
      assert C.UtenteCoerente(registro, utente);
      var pos := CercaPrestitoAttivo(registro, utente.libriPresiInPrestito, isbn);
      if pos == None {
        C.RestituzioneRifiutata(Stato(), idUtente, isbn, adesso, multaGiornaliera);
        return None;
      }
      C.RestituzioneTrovata(Stato(), idUtente, isbn, adesso, multaGiornaliera, pos.value);
      var i := utente.libriPresiInPrestito[pos.value];
      var importo := Multa(adesso, registro[i].dataScadenza, multaGiornaliera);
      ChiudiPrestito(i, isbn, importo);
      multa := Some(importo);
    }

    /** The successful half of a return: record i is marked returned with
        its fine and the book has one copy more. */
    method ChiudiPrestito(i: nat, isbn: string, importo: int)
      requires i < |registro| && isbn in libri
      modifies this
      ensures Stato() == C.Chiusura(old(Stato()), i, isbn, importo)
    {
      var libro := libri[isbn];
      registro := registro[i := registro[i].(restituito := true, multa := importo)];
      libri := libri[isbn := libro.(copieDisponibili := libro.copieDisponibili + 1)];
    }
  }

  /** The book of the scenario below. */
  const IsbnRosa := "978-88-04-66829-5"

  /** A new library holding one copy of one book and two members without
      loans. */
  method Allestisci() returns (b: Biblioteca)
    ensures fresh(b) && b.Valid()
    ensures b.giorniPrestito == C.GiorniPrestitoPredefiniti && b.multaGiornaliera == C.MultaGiornalieraPredefinita
    ensures IsbnRosa in b.libri && b.libri[IsbnRosa].copieDisponibili == 1
    ensures "U001" in b.utenti && b.utenti["U001"].libriPresiInPrestito == []
    ensures "U002" in b.utenti && b.utenti["U002"].libriPresiInPrestito == []
    ensures b.registro == []
  {
    b := new Biblioteca("Biblioteca Civica");
    var _ := b.AggiungiLibro(C.NuovoLibro(IsbnRosa, "Il nome della rosa", "Umberto Eco", 1980, 1));
    assert IsbnRosa in b.libri && b.libri[IsbnRosa].copieDisponibili == 1 && b.registro == [];
    var _ := b.RegistraUtente(C.NuovoUtente("U001", "Mario Rossi", "mario.rossi@email.it"));
    assert "U001" in b.utenti && b.utenti["U001"].libriPresiInPrestito == [];
    var _ := b.RegistraUtente(C.NuovoUtente("U002", "Laura Bianchi", "laura.bianchi@email.it"));
  }

  /** Member U001 borrows the only copy at instant `adesso`; member U002,
      asking for it at the same instant, is refused. */
  method Contesa(b: Biblioteca, adesso: int) returns (secondo: bool)
    requires b.Valid() && b.giorniPrestito == C.GiorniPrestitoPredefiniti
    requires IsbnRosa in b.libri && b.libri[IsbnRosa].copieDisponibili == 1
    requires "U001" in b.utenti && b.utenti["U001"].libriPresiInPrestito == []
    requires "U002" in b.utenti && b.utenti["U002"].libriPresiInPrestito == []
    requires b.registro == []
    modifies b
    ensures b.Valid() && !secondo
    ensures IsbnRosa in b.libri && b.libri[IsbnRosa].copieDisponibili == 0
    ensures "U001" in b.utenti && b.utenti["U001"].libriPresiInPrestito == [0]
    ensures |b.registro| == 1 && b.registro[0].isbn == IsbnRosa && !b.registro[0].restituito
    ensures b.registro[0].dataScadenza == Giorno(adesso) + C.GiorniPrestitoPredefiniti
  {
    var primo := b.PrendiInPrestito("U001", IsbnRosa, adesso);
    assert primo;
    secondo := b.PrendiInPrestito("U002", IsbnRosa, adesso);
  }

  /** U001 gives the copy back 17 days after borrowing it, three days after
      the due day. */
  method RestituzioneTardiva(b: Biblioteca, adesso: int) returns (multa: Option<int>, disponibili: int)
    requires b.Valid() && b.multaGiornaliera == C.MultaGiornalieraPredefinita
    requires IsbnRosa in b.libri && b.libri[IsbnRosa].copieDisponibili == 0
    requires "U001" in b.utenti && b.utenti["U001"].libriPresiInPrestito == [0]
    requires |b.registro| == 1 && b.registro[0].isbn == IsbnRosa && !b.registro[0].restituito
    requires b.registro[0].dataScadenza == Giorno(adesso) + C.GiorniPrestitoPredefiniti
    modifies b
    ensures multa == Some(3 * C.MultaGiornalieraPredefinita)
    ensures disponibili == 1
  {
    var reso := adesso + 17 * MicrosecondiGiorno;
    assert Giorno(reso) == Giorno(adesso) + 17 by {
      assert Scadenza(adesso, 17) == Giorno(adesso) + 17;
    }
    ghost var prima := b.Stato();
    assert PrimoAttivo(prima.registro, prima.utenti["U001"].libriPresiInPrestito, IsbnRosa) == Some(0);
    C.RestituzioneTrovata(prima, "U001", IsbnRosa, reso, C.MultaGiornalieraPredefinita, 0);
    C.LibriDopoChiusura(prima, 0, IsbnRosa, 3 * C.MultaGiornalieraPredefinita);
    multa := b.RestituisciLibro("U001", IsbnRosa, reso);
    disponibili := b.libri[IsbnRosa].copieDisponibili;
  }

  /** One copy, two members: the second member is refused while the first
      holds the copy; returning it three calendar days after the due day
      costs three days of fine, and the copy is available again. */
  method UnaCopiaDueUtenti(adesso: int) returns (secondo: bool, multa: Option<int>, disponibili: int)
    ensures !secondo
    ensures multa == Some(3 * C.MultaGiornalieraPredefinita)
    ensures disponibili == 1
  {
    var b := Allestisci();
    secondo := Contesa(b, adesso);
    multa, disponibili := RestituzioneTardiva(b, adesso);
  }
}
