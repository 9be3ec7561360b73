/** The application root's state: the record list, its copy in the browser's
    key-value storage under the key "processos", the load state and the
    editor's open/selected state. Every handler is one atomic step; a step
    that assigns the list is followed by the persist effect. */
module App {
  import opened Types
  import opened Records
  import Decimal

  /** What the browser's storage returns for the key "processos", with the JSON text
      abstracted to the list it encodes (stringify then parse is the identity).
      `Absent` is `null`; `Blank` is the empty string, which only an outside
      writer can leave there; both are falsy and send startup to the fetch. */
  datatype Slot = Absent | Blank | Snapshot(list: seq<Processo>)

  /** What a thrown value is: an `Error` carrying a message, or anything else. */
  datatype Thrown = ErrorObject(message: string) | NonError

  /** How the fetch of the static records file ends: a response with `ok`
      set and its parsed body, a response without `ok` and its status code,
      or a rejection (network failure, unreadable body). */
  datatype FetchOutcome = Fetched(data: seq<Processo>) | NotOk(status: nat) | Rejected(thrown: Thrown)

  /** The three screens the component can render. */
  datatype Screen = Loading | Failure(message: string) | Table(rows: seq<Processo>)

  /** The message a failed response is reported with: a fixed prefix, then
      the status in decimal. It is never empty, so it always reaches the
      error screen. */
  function HttpErrorMessage(status: nat): (m: string)
    ensures |m| > 11 && m[..11] == "Erro HTTP: "
    ensures m[11..] == Decimal.Format(status) && Decimal.AllDigits(m[11..])
  {
    "Erro HTTP: " + Decimal.Format(status)
  }

  /** The message kept for a caught value: its own message when it is an
      `Error`, a fixed text otherwise. */
  function CaughtMessage(t: Thrown): (m: string)
    ensures t.ErrorObject? ==> m == t.message
    ensures t.NonError? ==> m == "Erro desconhecido"
    ensures m == "" ==> t.ErrorObject?
  {
    match t
    case ErrorObject(m) => m
    case NonError => "Erro desconhecido"
  }

  /** The status code can be read back from the message it produced. */
  lemma HttpErrorMessageNamesStatus(status: nat)
    ensures Decimal.Parse(HttpErrorMessage(status)[11..]) == status
  {
    Decimal.ParseFormat(status);
  }

  class Store {
    var records: seq<Processo>
    var slot: Slot
    var isLoading: bool
    var error: Option<string>
    var modalOpen: bool
    var selected: Option<Processo>

    /** The store's invariant: a non-empty list is always what the slot
        holds, and an error is only ever reported once loading is over. */
    ghost predicate Valid()
      reads this
    {
      && (|records| > 0 ==> slot == Snapshot(records))
      && (error.Some? ==> !isLoading)
    }

    /** Which screen is rendered: loading first, then a truthy error, then
        the table. An error string that is empty is falsy and shows the table. */
    function CurrentScreen(): (v: Screen)
      reads this
      ensures v == Loading <==> isLoading
      ensures v.Failure? <==> !isLoading && error.Some? && error.value != ""
      ensures v.Failure? ==> v.message == error.value
      ensures v.Table? <==> !isLoading && (error == None || error == Some(""))
      ensures v.Table? ==> v.rows == records
    {
      if isLoading then Loading
      else if error.Some? && error.value != "" then Failure(error.value)
      else Table(records)
    }

    /** Mounting the component: the initial state of every field, then the
        load effect. A stored snapshot becomes the list and ends loading;
        otherwise the fetch is started and loading stays on until
        `FetchDone` runs. */
    constructor Init(stored: Slot)
      ensures Valid()
      ensures error == None && !modalOpen && selected == None
      ensures stored.Snapshot? ==> records == stored.list && !isLoading && slot == stored
      ensures !stored.Snapshot? ==> records == [] && isLoading && slot == stored
    {
      records := [];
      slot := stored;
      isLoading := true;
      error := None;
      modalOpen := false;
      selected := None;
      new;
      if stored.Snapshot? {
        records := stored.list;
        Persist();
        isLoading := false;
      } else {
        // the fetch turns loading on before it awaits the response
        isLoading := true;
      }
    }

    /** The persist effect, run after every assignment of the list: the list
        is written to the slot only when it is non-empty, so emptying the
        list leaves the previous snapshot in place. */
    method Persist()
      modifies this`slot
      ensures slot == if |records| > 0 then Snapshot(records) else old(slot)
    {
      if |records| > 0 {
        slot := Snapshot(records);
      }
    }

    /** The rest of the fetch, once the request has settled. A good response
        becomes both the list and the slot, even when it is empty; a bad one
        leaves the list alone and records a message; loading ends in every
        case. The fetch is only ever under way while loading is on: `Init`
        starts it only when no snapshot is stored, and nothing turns loading
        back on, so no outcome can land after a snapshot was loaded. */
    method FetchDone(outcome: FetchOutcome)
      requires Valid()
      requires isLoading
      modifies this
      ensures Valid()
      ensures !isLoading
      ensures modalOpen == old(modalOpen) && selected == old(selected)
      ensures outcome.Fetched? ==>
        records == outcome.data && slot == Snapshot(outcome.data) && error == old(error)
      ensures outcome.NotOk? ==>
        records == old(records) && slot == old(slot) && error == Some(HttpErrorMessage(outcome.status))
      ensures outcome.Rejected? ==>
        records == old(records) && slot == old(slot) && error == Some(CaughtMessage(outcome.thrown))
    {
      match outcome {
        case Fetched(data) =>
          records := data;
          slot := Snapshot(data);
          Persist();
        case NotOk(status) =>
          error := Some(HttpErrorMessage(status));
        case Rejected(thrown) =>
          error := Some(CaughtMessage(thrown));
      }
      isLoading := false;
    }

    /** "Add new": no record selected, editor open. */
    method OpenNew()
      requires Valid()
      modifies this`selected, this`modalOpen
      ensures Valid()
      ensures selected == None && modalOpen
    {
      selected := None;
      modalOpen := true;
    }

    /** "Edit row i": the record at that row is selected and the editor
        opens. A row outside the list reads `undefined`, which selects
        nothing, so a later save would create. */
    method OpenEdit(i: int)
      requires Valid()
      modifies this`selected, this`modalOpen
      ensures Valid()
      ensures modalOpen
      ensures 0 <= i < |records| ==> selected == Some(records[i])
      ensures !(0 <= i < |records|) ==> selected == None
    {
      if 0 <= i < |records| {
        selected := Some(records[i]);
      } else {
        selected := None;
      }
      modalOpen := true;
    }

    /** The editor's save: an update when a record was selected, a create
        otherwise, then the editor closes. The choice depends on the
        selection, not on whether `p.numero` is present, so an edit that
        changed the identifier to one not in the list changes nothing. The
        selection itself is left as it was. */
    method Save(p: Processo)
      requires Valid()
      modifies this`records, this`slot, this`modalOpen
      ensures Valid()
      ensures !modalOpen
      ensures records == if old(selected).Some? then ReplaceByNumero(old(records), p)
                         else Append(old(records), p)
      ensures slot == if |records| > 0 then Snapshot(records) else old(slot)
    {
      if selected.Some? {
        records := ReplaceByNumero(records, p);
      } else {
        records := Append(records, p);
      }
      Persist();
      modalOpen := false;
    }

    /** The table's delete: every record carrying `k` goes. When that empties
        the list the slot keeps its previous, now stale, snapshot. */
    method Delete(k: string)
      requires Valid()
      modifies this`records, this`slot
      ensures Valid()
      ensures records == RemoveByNumero(old(records), k)
      ensures slot == if |records| > 0 then Snapshot(records) else old(slot)
    {
      records := RemoveByNumero(records, k);
      Persist();
    }

    /** The editor's close: it shuts and nothing else changes. */
    method Close()
      requires Valid()
      modifies this`modalOpen
      ensures Valid()
      ensures !modalOpen
    {
      modalOpen := false;
    }
  }

  /** Reloading the page against the slot a store has written gives back the
      store's list, as long as that list is non-empty. */
  method Reload(s: Store) returns (reloaded: seq<Processo>)
    requires s.Valid() && |s.records| > 0
    ensures reloaded == s.records
  {
    var next := new Store.Init(s.slot);
    reloaded := next.records;
  }

  /** Startup with no snapshot stored (the slot absent or blank) and a fetch
      that returns one record: the table shows that record and the slot
      holds it. */
  method FirstLoad(initial: Slot, p: Processo) returns (shown: Screen, stored: Slot)
    requires !initial.Snapshot?
    ensures shown == Table([p])
    ensures stored == Snapshot([p])
  {
    var s := new Store.Init(initial);
    s.FetchDone(Fetched([p]));
    shown := s.CurrentScreen();
    stored := s.slot;
  }

  /** Startup with no snapshot stored (the slot absent or blank) and a fetch
      answered with status 500: the error screen shows a message naming the
      status. */
  method ServerError(initial: Slot) returns (shown: Screen)
    requires !initial.Snapshot?
    ensures shown == Failure("Erro HTTP: 500")
  {
    var s := new Store.Init(initial);
    s.FetchDone(NotOk(500));
    assert Decimal.Format(500) == "500";
    shown := s.CurrentScreen();
  }

  /** Creating a single record and deleting it again empties the list, but
      the slot still holds the one-record snapshot, so a reload brings the
      deleted record back. */
  method StaleAfterLastDelete(p: Processo) returns (after: seq<Processo>, reloaded: seq<Processo>)
    ensures after == []
    ensures reloaded == [p]
  {
    var s := new Store.Init(Absent);
    s.FetchDone(Fetched([]));
    s.OpenNew();
    s.Save(p);
    s.Delete(p.numero);
    after := s.records;
    var again := new Store.Init(s.slot);
    reloaded := again.records;
  }

  /** Opening row i for edit and saving a copy whose identifier was changed
      to one not in the list leaves the list as it was. */
  method EditRenamingIsNoOp(s: Store, i: nat, p: Processo) returns (before: seq<Processo>, after: seq<Processo>)
    requires s.Valid() && i < |s.records| && !HasNumero(s.records, p.numero)
    modifies s
    ensures after == before
  {
    before := s.records;
    s.OpenEdit(i);
    s.Save(p);
    after := s.records;
  }
}
