/**
 * Loan records of the library and the arithmetic around them: the clock,
 * due dates, late days and fines, the due-status classification of an
 * active loan, and the counting of active records in a list of record
 * indices.
 *
 * Every loan record lives once in a central register (a `seq<Prestito>`);
 * a book and a member each keep the indices of their records, in the order
 * the loans were made.
 */
module Registro {

  datatype Option<T> = None | Some(value: T)

  // ---------------------------------------------------------------------------
  // Clock
  // ---------------------------------------------------------------------------

  /** Instants are microseconds on a naive (time-zone free) clock, the
      resolution of Python's datetime; a calendar day is this many of them. */
  const MicrosecondiGiorno: int := 86_400_000_000

  /** The calendar day (numbered from the clock's epoch) that holds instant t. */
  function Giorno(t: int): (d: int)
    ensures d * MicrosecondiGiorno <= t < d * MicrosecondiGiorno + MicrosecondiGiorno
  {
    t / MicrosecondiGiorno
  }

  /** The instant at which calendar day d starts (midnight), which is what
      parsing a date-only string gives. */
  function Mezzanotte(d: int): (t: int)
    ensures Giorno(t) == d && t % MicrosecondiGiorno == 0
  {
    d * MicrosecondiGiorno
  }

  /** Due day of a loan made at instant `adesso`: the date of the instant
      `giorniPrestito` days later. It is the loan's own day plus the period. */
  function Scadenza(adesso: int, giorniPrestito: int): (d: int)
    ensures d == Giorno(adesso) + giorniPrestito
  {
    Giorno(adesso + giorniPrestito * MicrosecondiGiorno)
  }

  /** Whole days from the start of the due day to `adesso`, floored, as
      `timedelta.days` does; negative while the due day has not come. It is
      exactly the difference of the calendar days. */
  function GiorniRitardo(adesso: int, scadenza: int): (g: int)
    ensures g == Giorno(adesso) - scadenza
  {
    (adesso - Mezzanotte(scadenza)) / MicrosecondiGiorno
  }

  /** Whole days from `adesso` to the start of the due day, floored. Unless
      `adesso` is exactly midnight this is one less than the difference of
      the calendar days. */
  function GiorniRimanenti(scadenza: int, adesso: int): (g: int)
    ensures g == scadenza - Giorno(adesso) - (if adesso % MicrosecondiGiorno == 0 then 0 else 1)
  {
    (Mezzanotte(scadenza) - adesso) / MicrosecondiGiorno
  }

  // ---------------------------------------------------------------------------
  // Fines (integer amounts, e.g. euro cents)
  // ---------------------------------------------------------------------------

  /** Fine for returning at instant `adesso` a loan due on day `scadenza`:
      nothing up to and including the due day, `tariffa` per calendar day
      after it. */
  function Multa(adesso: int, scadenza: int, tariffa: int): (r: int)
    ensures Giorno(adesso) <= scadenza ==> r == 0
    ensures Giorno(adesso) > scadenza ==> r == (Giorno(adesso) - scadenza) * tariffa
  {
    var giorniRitardo := GiorniRitardo(adesso, scadenza);
    if giorniRitardo > 0 then giorniRitardo * tariffa else 0
  }

  /** Returning later never costs less (for a non-negative rate). */
  lemma MultaMonotona(prima: int, dopo: int, scadenza: int, tariffa: int)
    requires prima <= dopo && tariffa >= 0
    ensures 0 <= Multa(prima, scadenza, tariffa) <= Multa(dopo, scadenza, tariffa)
  {
    var a, b := Giorno(prima), Giorno(dopo);
    assert a <= b;
    if a > scadenza {
      assert (a - scadenza) * tariffa <= (b - scadenza) * tariffa by {
        MoltiplicazioneMonotona(a - scadenza, b - scadenza, tariffa);
      }
    }
  }

  lemma MoltiplicazioneMonotona(x: int, y: int, k: int)
    requires 0 <= x <= y && k >= 0
    ensures 0 <= x * k <= y * k
  {
  }

  // ---------------------------------------------------------------------------
  // Due status of an active loan
  // ---------------------------------------------------------------------------

  datatype Stato = InRitardo | InScadenza | Regolare

  /** Classification of the whole days left before the due day starts:
      overdue when negative, due soon from 0 to 3, fine beyond. */
  function Classifica(giorniRimanenti: int): (s: Stato)
    ensures s == InRitardo <==> giorniRimanenti < 0
    ensures s == InScadenza <==> 0 <= giorniRimanenti <= 3
    ensures s == Regolare <==> giorniRimanenti > 3
  {
    if giorniRimanenti < 0 then InRitardo
    else if giorniRimanenti <= 3 then InScadenza
    else Regolare
  }

  /** The classification as a function of the instant: a loan is overdue as
      soon as its due day has started, due soon during the four days before,
      and fine earlier. */
  lemma ClassificaIstante(scadenza: int, adesso: int)
    ensures Classifica(GiorniRimanenti(scadenza, adesso)) ==
      if adesso > Mezzanotte(scadenza) then InRitardo
      else if adesso > Mezzanotte(scadenza - 4) then InScadenza
      else Regolare
  {
    var g := GiorniRimanenti(scadenza, adesso);
    var x := Mezzanotte(scadenza) - adesso;
    assert g * MicrosecondiGiorno <= x < g * MicrosecondiGiorno + MicrosecondiGiorno;
    assert Mezzanotte(scadenza - 4) == Mezzanotte(scadenza) - 4 * MicrosecondiGiorno;
    if g < 0 {
      assert x < 0;
    } else if g <= 3 {
      assert 0 <= x < 4 * MicrosecondiGiorno;
    } else {
      assert x >= 4 * MicrosecondiGiorno;
    }
  }

  /** On the due day itself, after midnight, the report already shows the
      loan as overdue, while returning it that day costs nothing. */
  lemma InRitardoSenzaMulta(scadenza: int, adesso: int, tariffa: int)
    requires Giorno(adesso) == scadenza && adesso % MicrosecondiGiorno != 0
    ensures Classifica(GiorniRimanenti(scadenza, adesso)) == InRitardo
    ensures Multa(adesso, scadenza, tariffa) == 0
  {
  }

  // ---------------------------------------------------------------------------
  // Loan records
  // ---------------------------------------------------------------------------

  /** One loan record: the book's key and title at the time of the loan, the
      instant of the loan, the due day, whether it was returned and the fine
      charged on return. */
  datatype Prestito = Prestito(
    isbn: string,
    titolo: string,
    dataPrestito: int,
    dataScadenza: int,
    restituito: bool,
    multa: int)

  /** A record is what a return of `isbn` looks for: that book, not yet returned. */
  predicate Corrisponde(p: Prestito, isbn: string)
  {
    p.isbn == isbn && !p.restituito
  }

  /** Every index of the list names a record of a register of size n. */
  predicate IndiciValidi(indici: seq<nat>, n: nat)
  {
    forall j | 0 <= j < |indici| :: indici[j] < n
  }

  /** Indices appended in the order the records were created: strictly increasing. */
  predicate Crescenti(indici: seq<nat>)
  {
    forall i, j | 0 <= i < j < |indici| :: indici[i] < indici[j]
  }

  /** Number of records of the list that are not returned. */
  function Attivi(registro: seq<Prestito>, indici: seq<nat>): (n: nat)
    requires IndiciValidi(indici, |registro|)
    ensures n <= |indici|
    decreases |indici|
  {
    if indici == [] then 0
    else
      var ultimo := indici[|indici| - 1];
      Attivi(registro, indici[..|indici| - 1]) + (if registro[ultimo].restituito then 0 else 1)
  }

  /** Records that are not returned, in list order. */
  function PrestitiAttivi(registro: seq<Prestito>, indici: seq<nat>): (r: seq<nat>)
    requires IndiciValidi(indici, |registro|)
    ensures |r| == Attivi(registro, indici) && IndiciValidi(r, |registro|)
    ensures forall x | x in r :: x in indici && !registro[x].restituito
    ensures forall x | x in indici && !registro[x].restituito :: x in r
    ensures Crescenti(indici) ==> Crescenti(r)
    decreases |indici|
  {
    if indici == [] then []
    else
      var ultimo := indici[|indici| - 1];
      var prima := PrestitiAttivi(registro, indici[..|indici| - 1]);
      assert forall x | x in indici :: x in indici[..|indici| - 1] || x == ultimo;
      assert Crescenti(indici) ==> forall x | x in prima :: x < ultimo by {
        if Crescenti(indici) {
          assert Crescenti(indici[..|indici| - 1]);
          forall x | x in prima ensures x < ultimo {
            var j :| 0 <= j < |indici| - 1 && indici[j] == x;
          }
        }
      }
      if registro[ultimo].restituito then prima
      else
        assert Crescenti(indici) ==> Crescenti(prima + [ultimo]) by {
          if Crescenti(indici) {
            CrescentiAggiunta(prima, ultimo);
          }
        }
        prima + [ultimo]
  }

  /** Appending an index larger than all the others keeps a list increasing. */
  lemma CrescentiAggiunta(indici: seq<nat>, x: nat)
    requires Crescenti(indici) && forall y | y in indici :: y < x
    ensures Crescenti(indici + [x])
  {
    forall i, j | 0 <= i < j < |indici| + 1 ensures (indici + [x])[i] < (indici + [x])[j] {
      if j == |indici| {
        assert indici[i] in indici;
      }
    }
  }

  /** Replacing the last record of a register that just grew by one. */
  lemma UltimoSostituito(registro: seq<Prestito>, p: Prestito, q: Prestito)
    ensures (registro + [p])[|registro| := q] == registro + [q]
  {
    assert forall i | 0 <= i < |registro| :: (registro + [p])[|registro| := q][i] == registro[i];
  }

  /** Adding records to the register does not change the count of a list
      that only names older records. */
  lemma {:induction false} AttiviEstensione(registro: seq<Prestito>, nuovi: seq<Prestito>, indici: seq<nat>)
    requires IndiciValidi(indici, |registro|)
    ensures Attivi(registro + nuovi, indici) == Attivi(registro, indici)
    decreases |indici|
  {
    if indici != [] {
      var ultimo := indici[|indici| - 1];
      AttiviEstensione(registro, nuovi, indici[..|indici| - 1]);
      assert (registro + nuovi)[ultimo] == registro[ultimo];
    }
  }

  /** Appending the index of a new, active record to a list adds one to its count. */
  lemma AttiviAggiunta(registro: seq<Prestito>, indici: seq<nat>, p: Prestito)
    requires IndiciValidi(indici, |registro|) && !p.restituito
    ensures IndiciValidi(indici + [|registro|], |registro| + 1)
    ensures Attivi(registro + [p], indici + [|registro|]) == Attivi(registro, indici) + 1
  {
    var esteso := indici + [|registro|];
    assert esteso[..|esteso| - 1] == indici;
    AttiviEstensione(registro, [p], indici);
  }

  /** Marking an active record as returned takes one off the count of every
      list that names it (once, as the list is strictly increasing) and
      changes no other list. */
  lemma {:induction false} AttiviRestituzione(registro: seq<Prestito>, indici: seq<nat>, i: nat, p: Prestito)
    requires IndiciValidi(indici, |registro|) && Crescenti(indici)
    requires i < |registro| && !registro[i].restituito && p.restituito
    ensures Attivi(registro[i := p], indici) == Attivi(registro, indici) - (if i in indici then 1 else 0)
    decreases |indici|
  {
    if indici != [] {
      var prima := indici[..|indici| - 1];
      var ultimo := indici[|indici| - 1];
      AttiviRestituzione(registro, prima, i, p);
      assert forall x :: x in indici <==> x in prima || x == ultimo;
      if i == ultimo {
        assert i !in prima;
      }
    }
  }

  // ---------------------------------------------------------------------------
  // Search for the record to return
  // ---------------------------------------------------------------------------

  /** Position, in a member's list, of the first record that a return of
      `isbn` matches, if any. */
  function PrimoAttivo(registro: seq<Prestito>, indici: seq<nat>, isbn: string): (r: Option<nat>)
    requires IndiciValidi(indici, |registro|)
    ensures r.Some? ==> r.value < |indici| && Corrisponde(registro[indici[r.value]], isbn)
    ensures r.Some? ==> forall j | 0 <= j < r.value :: !Corrisponde(registro[indici[j]], isbn)
    ensures r.None? <==> forall j | 0 <= j < |indici| :: !Corrisponde(registro[indici[j]], isbn)
    decreases |indici|
  {
    if indici == [] then None
    else if Corrisponde(registro[indici[0]], isbn) then Some(0)
    else
      match PrimoAttivo(registro, indici[1..], isbn)
      case None => None
      case Some(j) => Some(j + 1)
  }

  /** A new record for `isbn` appended to a list with no match is the first match. */
  lemma PrimoAttivoInCoda(registro: seq<Prestito>, indici: seq<nat>, isbn: string, p: Prestito)
    requires IndiciValidi(indici, |registro|) && Corrisponde(p, isbn)
    requires forall j | 0 <= j < |indici| :: !Corrisponde(registro[indici[j]], isbn)
    ensures IndiciValidi(indici + [|registro|], |registro| + 1)
    ensures PrimoAttivo(registro + [p], indici + [|registro|], isbn) == Some(|indici|)
  {
    var esteso, lista := registro + [p], indici + [|registro|];
    assert IndiciValidi(lista, |esteso|);
    assert Corrisponde(esteso[lista[|indici|]], isbn);
    forall j | 0 <= j < |indici| ensures !Corrisponde(esteso[lista[j]], isbn) {
      assert esteso[lista[j]] == registro[indici[j]];
    }
  }

  /** The linear search with early exit that a return performs over the
      member's loans. */
  method CercaPrestitoAttivo(registro: seq<Prestito>, indici: seq<nat>, isbn: string) returns (pos: Option<nat>)
    requires IndiciValidi(indici, |registro|)
    ensures pos == PrimoAttivo(registro, indici, isbn)
  {
    pos := None;
    var k := 0;
    while k < |indici|
      invariant 0 <= k <= |indici|
      invariant forall j | 0 <= j < k :: !Corrisponde(registro[indici[j]], isbn)
    {
      if Corrisponde(registro[indici[k]], isbn) {
        pos := Some(k);
        return;
      }
      k := k + 1;
    }
  }
}
