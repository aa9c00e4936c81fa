/** The simulator's two database wrappers, and what any deterministic client sees through them. */
module SimulatorDb {
  import opened Wrappers
  import opened Numbers
  import opened Pools

  type Slot = u256
  type Code = seq<nat>
  type CodeHash = nat
  type StorageKey = (Address, Slot)

  const KECCAK_EMPTY: CodeHash := 0

  datatype AccountInfo = AccountInfo(balance: u256, nonce: nat, codeHash: CodeHash, code: Option<Code>)

  datatype StrictMissingError =
    | MissingAccount(account: Address)
    | MissingStorage(addr: Address, slot: Slot)
    | MissingCodeHash(codeHash: CodeHash)
    | MissingBlockHash(number: nat)

  /** The state an executed transaction leaves an account in, with the three flags that a commit looks at. */
  datatype Change = Change(
    touched: bool,
    created: bool,
    selfdestructed: bool,
    info: AccountInfo,
    storage: map<Slot, u256>)

  type Changes = map<Address, Change>

  /** One recorded storage read. */
  datatype StateObservation = StateObservation(account: Address, slot: Slot, value: u256)

  // ----- databases and clients in general ---------------------------------------------------

  /** A database as its client sees it; reads may change its state too. */
  datatype Db<!D, E> = Db(
    basic: (D, Address) -> (Result<Option<AccountInfo>, E>, D),
    codeByHash: (D, CodeHash) -> (Result<Code, E>, D),
    storage: (D, Address, Slot) -> (Result<u256, E>, D),
    blockHash: (D, nat) -> (Result<nat, E>, D),
    commit: (D, Changes) -> D)

  datatype Request =
    | AskBasic(address: Address)
    | AskCode(codeHash: CodeHash)
    | AskStorage(addr: Address, slot: Slot)
    | AskBlockHash(number: nat)
    | DoCommit(changes: Changes)

  datatype Reply<E> =
    | BasicReply(basic: Result<Option<AccountInfo>, E>)
    | CodeReply(code: Result<Code, E>)
    | StorageReply(word: Result<u256, E>)
    | BlockHashReply(hash: Result<nat, E>)
    | Committed

  /** A deterministic client: what it does next depends on its own state alone, and that on the replies. */
  datatype Client<!S, !E> = Client(next: S -> Option<Request>, resume: (S, Reply<E>) -> S)

  function Serve<D, E>(db: Db<D, E>, d: D, q: Request): (Reply<E>, D) {
    match q
    case AskBasic(a) => var r := db.basic(d, a); (BasicReply(r.0), r.1)
    case AskCode(h) => var r := db.codeByHash(d, h); (CodeReply(r.0), r.1)
    case AskStorage(a, s) => var r := db.storage(d, a, s); (StorageReply(r.0), r.1)
    case AskBlockHash(n) => var r := db.blockHash(d, n); (BlockHashReply(r.0), r.1)
    case DoCommit(changes) => (Committed, db.commit(d, changes))
  }

  datatype Exchange<E> = Exchange(request: Request, reply: Reply<E>)

  datatype Session<S, D, E> = Session(client: S, db: D, exchanges: seq<Exchange<E>>)

  /** A client's first `n` exchanges with a database. */
  function Converse<S, D, E>(db: Db<D, E>, c: Client<S, E>, s: S, d: D, n: nat): Session<S, D, E> {
    if n == 0 then Session(s, d, [])
    else
      var before := Converse(db, c, s, d, n - 1);
      match c.next(before.client)
      case None => before
      case Some(q) =>
        var (reply, d') := Serve(db, before.db, q);
        Session(c.resume(before.client, reply), d', before.exchanges + [Exchange(q, reply)])
  }

  // ----- RecordingDb ------------------------------------------------------------------------

  datatype Recorded<D> = Recorded(inner: D, observed: seq<StateObservation>)

  /** The wrapper: everything is passed through, and each successful storage read is noted. */
  function Recording<D, E>(db: Db<D, E>): Db<Recorded<D>, E> {
    Db((r: Recorded<D>, a: Address) => var x := db.basic(r.inner, a); (x.0, r.(inner := x.1)),
       (r: Recorded<D>, h: CodeHash) => var x := db.codeByHash(r.inner, h); (x.0, r.(inner := x.1)),
       (r: Recorded<D>, a: Address, s: Slot) =>
         var x := db.storage(r.inner, a, s);
         (x.0, Recorded(x.1, if x.0.Ok? then r.observed + [StateObservation(a, s, x.0.value)] else r.observed)),
       (r: Recorded<D>, n: nat) => var x := db.blockHash(r.inner, n); (x.0, r.(inner := x.1)),
       (r: Recorded<D>, changes: Changes) => r.(inner := db.commit(r.inner, changes)))
  }

  /** The successful storage reads among some exchanges, in order. */
  function ReadsOf<E>(xs: seq<Exchange<E>>): seq<StateObservation> {
    if xs == [] then []
    else
      var last := xs[|xs| - 1];
      ReadsOf(xs[..|xs| - 1])
      + (if last.request.AskStorage? && last.reply.StorageReply? && last.reply.word.Ok?
         then [StateObservation(last.request.addr, last.request.slot, last.reply.word.value)] else [])
  }

  /** The recorded read set is exactly those reads, and nothing else about the conversation changes. */
  lemma {:induction false} RecordingIsTransparent<S, D, E>(db: Db<D, E>, c: Client<S, E>, s: S, d: D, n: nat)
    ensures var bare := Converse(db, c, s, d, n);
            var recorded := Converse(Recording(db), c, s, Recorded(d, []), n);
            && recorded.client == bare.client && recorded.exchanges == bare.exchanges
            && recorded.db == Recorded(bare.db, ReadsOf(bare.exchanges))
    decreases n
  {
    if n > 0 {
      RecordingIsTransparent(db, c, s, d, n - 1);
      var before := Converse(db, c, s, d, n - 1);
      var next := c.next(before.client);
      if next.Some? {
        ServeRecording(db, Recorded(before.db, ReadsOf(before.exchanges)), next.value);
        var x := Exchange(next.value, Serve(db, before.db, next.value).0);
        assert (before.exchanges + [x])[..|before.exchanges|] == before.exchanges;
      }
    }
  }

  lemma ServeRecording<D, E>(db: Db<D, E>, r: Recorded<D>, q: Request)
    ensures var bare := Serve(db, r.inner, q);
            var wrapped := Serve(Recording(db), r, q);
            && wrapped.0 == bare.0 && wrapped.1.inner == bare.1
            && wrapped.1.observed == r.observed
               + (if q.AskStorage? && bare.0.word.Ok?
                  then [StateObservation(q.addr, q.slot, bare.0.word.value)] else [])
  {
    match q {
      case AskStorage(a, s) =>
      case _ => assert r.observed + [] == r.observed;
    }
    assert r.observed + [] == r.observed;
  }

  class RecordingDb<D(!new), E(!new)> {
    const ops: Db<D, E>
    var inner: D
    var observed: seq<StateObservation>

    constructor (ops: Db<D, E>, inner: D)
      ensures this.ops == ops && Snapshot() == Recorded(inner, [])
    {
      this.ops, this.inner, this.observed := ops, inner, [];
    }

    function Snapshot(): Recorded<D>
      reads this
    {
      Recorded(inner, observed)
    }

    method Basic(address: Address) returns (r: Result<Option<AccountInfo>, E>)
      modifies this`inner
      ensures (r, Snapshot()) == Recording(ops).basic(old(Snapshot()), address)
    {
      var (answer, next) := ops.basic(inner, address);
      r, inner := answer, next;
    }

    method CodeByHash(codeHash: CodeHash) returns (r: Result<Code, E>)
      modifies this`inner
      ensures (r, Snapshot()) == Recording(ops).codeByHash(old(Snapshot()), codeHash)
    {
      var (answer, next) := ops.codeByHash(inner, codeHash);
      r, inner := answer, next;
    }

    method Storage(address: Address, index: Slot) returns (r: Result<u256, E>)
      modifies this
      ensures (r, Snapshot()) == Recording(ops).storage(old(Snapshot()), address, index)
    {
      var (answer, next) := ops.storage(inner, address, index);
      r, inner := answer, next;
      if r.Ok? {
        observed := observed + [StateObservation(address, index, r.value)];
      }
    }

    method BlockHash(number: nat) returns (r: Result<nat, E>)
      modifies this`inner
      ensures (r, Snapshot()) == Recording(ops).blockHash(old(Snapshot()), number)
    {
      var (answer, next) := ops.blockHash(inner, number);
      r, inner := answer, next;
    }

    method Commit(changes: Changes)
      modifies this`inner
      ensures Snapshot() == Recording(ops).commit(old(Snapshot()), changes)
    {
      inner := ops.commit(inner, changes);
    }
  }

  // ----- StrictMissingDb --------------------------------------------------------------------

  /** The in-memory store (absent slots read as zero) and what has been populated explicitly. */
  datatype Strict = Strict(
    accounts: map<Address, AccountInfo>,
    codes: map<CodeHash, Code>,
    slots: map<StorageKey, u256>,
    populatedAccounts: set<Address>,
    populatedStorage: set<StorageKey>)

  const EMPTY: Strict := Strict(map[], map[], map[], {}, {})

  /** Non-empty code is kept under its hash, unless there is some already. */
  function WithCode(codes: map<CodeHash, Code>, info: AccountInfo): map<CodeHash, Code> {
    if info.code.Some? && info.code.value != [] && info.codeHash !in codes
    then codes[info.codeHash := info.code.value] else codes
  }

  function InsertAccount(d: Strict, a: Address, info: AccountInfo): Strict {
    d.(accounts := d.accounts[a := info], codes := WithCode(d.codes, info),
      populatedAccounts := d.populatedAccounts + {a})
  }

  function InsertStorage(d: Strict, a: Address, s: Slot, v: u256): Strict {
    d.(slots := d.slots[(a, s) := v], populatedAccounts := d.populatedAccounts + {a},
      populatedStorage := d.populatedStorage + {(a, s)})
  }

  /** Every slot a commit mentions, whether or not it goes into the store. */
  function Listed(changes: Changes): set<StorageKey> {
    set a, s | a in changes && s in changes[a].storage :: (a, s)
  }

  predicate Survives(c: Change) {
    c.touched && !c.selfdestructed
  }

  predicate Clears(c: Change) {
    c.touched && (c.selfdestructed || c.created)
  }

  function Written(changes: Changes): map<StorageKey, u256> {
    map a, s | a in changes && s in changes[a].storage && Survives(changes[a]) :: (a, s) := changes[a].storage[s]
  }

  /** What the inner store does: it skips untouched accounts, drops self-destructed ones, and clears new ones first. */
  function InnerCommit(d: Strict, changes: Changes): Strict {
    d.(accounts := (map a | a in d.accounts && !(a in changes && changes[a].touched) :: d.accounts[a])
                   + (map a | a in changes && Survives(changes[a]) :: changes[a].info),
       slots := (map k | k in d.slots && !(k.0 in changes && Clears(changes[k.0])) :: d.slots[k]) + Written(changes))
  }

  function Commit(d: Strict, changes: Changes): Strict {
    InnerCommit(d.(populatedAccounts := d.populatedAccounts + changes.Keys,
                   populatedStorage := d.populatedStorage + Listed(changes)), changes)
  }

  function ReadBasic(d: Strict, a: Address): Result<Option<AccountInfo>, StrictMissingError> {
    if a !in d.populatedAccounts then Err(MissingAccount(a))
    else Ok(if a in d.accounts then Some(d.accounts[a]) else None)
  }

  function ReadCode(d: Strict, h: CodeHash): Result<Code, StrictMissingError> {
    if h == KECCAK_EMPTY then Ok([])
    else if h in d.codes && d.codes[h] != [] then Ok(d.codes[h])
    else Err(MissingCodeHash(h))
  }

  function ReadStorage(d: Strict, a: Address, s: Slot): Result<u256, StrictMissingError> {
    if (a, s) !in d.populatedStorage then Err(MissingStorage(a, s))
    else Ok(if (a, s) in d.slots then d.slots[(a, s)] else 0)
  }

  function StrictDb(): Db<Strict, StrictMissingError> {
    Db((d: Strict, a: Address) => (ReadBasic(d, a), d),
       (d: Strict, h: CodeHash) => (ReadCode(d, h), d),
       (d: Strict, a: Address, s: Slot) => (ReadStorage(d, a, s), d),
       (d: Strict, n: nat) => (Err(MissingBlockHash(n)), d),
       (d: Strict, changes: Changes) => Commit(d, changes))
  }

  /** The listed slots of some of the listed accounts. */
  function KeysAt(changes: Changes, accounts: set<Address>): set<StorageKey> {
    set k | k in Listed(changes) && k.0 in accounts
  }

  lemma OneMoreAccount(changes: Changes, done: set<Address>, a: Address)
    requires a in changes
    ensures KeysAt(changes, done + {a}) == KeysAt(changes, done) + (set s | s in changes[a].storage.Keys :: (a, s))
  {
  }

  lemma AllAccounts(changes: Changes)
    ensures KeysAt(changes, changes.Keys) == Listed(changes)
    ensures KeysAt(changes, {}) == {}
  {
  }

  class StrictMissingDb {
    var db: Strict

    constructor ()
      ensures db == EMPTY
    {
      db := EMPTY;
    }

    method InsertAccountInfo(a: Address, info: AccountInfo)
      modifies this
      ensures db == InsertAccount(old(db), a, info)
    {
      db := db.(accounts := db.accounts[a := info], codes := WithCode(db.codes, info));
      db := db.(populatedAccounts := db.populatedAccounts + {a});
    }

    method InsertSlot(a: Address, s: Slot, v: u256)
      modifies this
      ensures db == InsertStorage(old(db), a, s, v)
    {
      db := db.(slots := db.slots[(a, s) := v]);
      db := db.(populatedAccounts := db.populatedAccounts + {a});
      db := db.(populatedStorage := db.populatedStorage + {(a, s)});
    }

    /** Marks every listed account and slot as populated, one by one, then hands the changes to the inner store. */
    method CommitChanges(changes: Changes)
      modifies this
      ensures db == Commit(old(db), changes)
    {
      var accounts, storage := db.populatedAccounts, db.populatedStorage;
      var left := changes.Keys;
      assert changes.Keys - left == {};
      AllAccounts(changes);
      hide KeysAt, Listed, InnerCommit;
      while left != {}
        invariant db == old(db) && left <= changes.Keys
        invariant accounts == db.populatedAccounts + (changes.Keys - left)
        invariant storage == db.populatedStorage + KeysAt(changes, changes.Keys - left)
        decreases left
      {
        var a :| a in left;
        accounts := accounts + {a};
        storage := MarkSlots(a, changes[a].storage.Keys, storage);
        OneMoreAccount(changes, changes.Keys - left, a);
        assert changes.Keys - (left - {a}) == (changes.Keys - left) + {a};
        left := left - {a};
      }
      assert changes.Keys - left == changes.Keys;
      AllAccounts(changes);
      db := db.(populatedAccounts := accounts, populatedStorage := storage);
      db := InnerCommit(db, changes);
    }

    method MarkSlots(a: Address, slots: set<Slot>, storage0: set<StorageKey>) returns (storage: set<StorageKey>)
      ensures storage == storage0 + (set s | s in slots :: (a, s))
    {
      storage := storage0;
      var left := slots;
      while left != {}
        invariant left <= slots
        invariant storage == storage0 + (set s | s in slots - left :: (a, s))
        decreases left
      {
        var s :| s in left;
        storage := storage + {(a, s)};
        left := left - {s};
      }
    }

    method Storage(a: Address, s: Slot) returns (r: Result<u256, StrictMissingError>)
      ensures r == ReadStorage(db, a, s)
    {
      if (a, s) !in db.populatedStorage {
        return Err(MissingStorage(a, s));
      }
      r := Ok(if (a, s) in db.slots then db.slots[(a, s)] else 0);
    }
  }

  // ----- the latest write -------------------------------------------------------------------

  /** The writes a database has seen, oldest first. */
  datatype Write =
    | AccountInserted(a: Address, info: AccountInfo)
    | StorageInserted(at: Address, slot: Slot, value: u256)
    | ChangesCommitted(changes: Changes)

  function Apply(d: Strict, w: Write): Strict {
    match w
    case AccountInserted(a, info) => InsertAccount(d, a, info)
    case StorageInserted(a, s, v) => InsertStorage(d, a, s, v)
    case ChangesCommitted(changes) => Commit(d, changes)
  }

  function After(ws: seq<Write>): Strict {
    if ws == [] then EMPTY else Apply(After(ws[..|ws| - 1]), ws[|ws| - 1])
  }

  /** The value a write puts into a slot, if it does. */
  function StoredBy(w: Write, a: Address, s: Slot): Option<u256> {
    match w
    case StorageInserted(a', s', v) => if a' == a && s' == s then Some(v) else None
    case ChangesCommitted(changes) =>
      if a in changes && s in changes[a].storage && changes[a].touched && !changes[a].selfdestructed
      then Some(changes[a].storage[s]) else None
    case AccountInserted(_, _) => None
  }

  predicate ClearedBy(w: Write, a: Address) {
    && w.ChangesCommitted? && a in w.changes
    && w.changes[a].touched && (w.changes[a].selfdestructed || w.changes[a].created)
  }

  /** Whether a write marks a slot as populated. */
  predicate NamedBy(w: Write, a: Address, s: Slot) {
    match w
    case StorageInserted(a', s', _) => a' == a && s' == s
    case ChangesCommitted(changes) => a in changes && s in changes[a].storage
    case AccountInserted(_, _) => false
  }

  function Named(ws: seq<Write>, a: Address, s: Slot): bool {
    if ws == [] then false else NamedBy(ws[|ws| - 1], a, s) || Named(ws[..|ws| - 1], a, s)
  }

  /** The value last stored in a slot and not cleared since, looking back from the newest write. */
  function Latest(ws: seq<Write>, a: Address, s: Slot): Option<u256> {
    if ws == [] then None
    else
      var w := ws[|ws| - 1];
      if StoredBy(w, a, s).Some? then StoredBy(w, a, s)
      else if ClearedBy(w, a) then None
      else Latest(ws[..|ws| - 1], a, s)
  }

  function OrZero(v: Option<u256>): u256 {
    match v case Some(x) => x case None => 0
  }

  function Answer(ws: seq<Write>, a: Address, s: Slot): Result<u256, StrictMissingError> {
    if Named(ws, a, s) then Ok(OrZero(Latest(ws, a, s))) else Err(MissingStorage(a, s))
  }

  /**
   * After any history a slot reads as a typed error exactly if no write has named it, and otherwise as the value
   * last stored and not cleared since, or as zero if there is none.
   */
  lemma {:induction false} ReadsAreLatest(ws: seq<Write>, a: Address, s: Slot)
    ensures ReadStorage(After(ws), a, s) == Answer(ws, a, s)
    ensures (a, s) in After(ws).populatedStorage <==> Named(ws, a, s)
    ensures (a, s) in After(ws).slots <==> Latest(ws, a, s).Some?
    ensures (a, s) in After(ws).slots ==> After(ws).slots[(a, s)] == Latest(ws, a, s).value
  {
    hide Apply;
    if ws != [] {
      ReadsAreLatest(ws[..|ws| - 1], a, s);
      ApplyOne(After(ws[..|ws| - 1]), ws[|ws| - 1], a, s);
    }
  }

  /** What one write does to one slot. */
  lemma ApplyOne(d: Strict, w: Write, a: Address, s: Slot)
    ensures var d', k := Apply(d, w), (a, s);
            && (k in d'.populatedStorage <==> k in d.populatedStorage || NamedBy(w, a, s))
            && (k in d'.slots <==> StoredBy(w, a, s).Some? || (k in d.slots && !ClearedBy(w, a)))
            && (k in d'.slots ==>
                  d'.slots[k] == if StoredBy(w, a, s).Some? then StoredBy(w, a, s).value else d.slots[k])
  {
  }

  // ----- accounts and code ------------------------------------------------------------------

  /** What a write makes of an account: nothing, or the account it is afterwards, if it still is one. */
  function AccountBy(w: Write, a: Address): Option<Option<AccountInfo>> {
    match w
    case AccountInserted(a', info) => if a' == a then Some(Some(info)) else None
    case StorageInserted(_, _, _) => None
    case ChangesCommitted(changes) =>
      if a in changes && changes[a].touched
      then Some(if changes[a].selfdestructed then None else Some(changes[a].info))
      else None
  }

  /** Whether a write marks an account as populated. */
  predicate NamesAccount(w: Write, a: Address) {
    match w
    case AccountInserted(a', _) => a' == a
    case StorageInserted(a', _, _) => a' == a
    case ChangesCommitted(changes) => a in changes
  }

  ghost predicate AccountNamed(ws: seq<Write>, a: Address) {
    exists i :: 0 <= i < |ws| && NamesAccount(ws[i], a)
  }

  /** Position `i` is the last write that made anything of the account. */
  ghost predicate LastOfAccount(ws: seq<Write>, i: int, a: Address) {
    && 0 <= i < |ws| && AccountBy(ws[i], a).Some?
    && forall j :: i < j < |ws| ==> AccountBy(ws[j], a).None?
  }

  /**
   * After any history `basic` is a typed error exactly if no write named the account, and otherwise what the last
   * write that made anything of it left; an account that none did, or that was destroyed, reads as absent.
   */
  lemma {:induction false} BasicIsLatest(ws: seq<Write>, a: Address)
    ensures ReadBasic(After(ws), a).Err? <==> !AccountNamed(ws, a)
    ensures ReadBasic(After(ws), a).Err? ==> ReadBasic(After(ws), a) == Err(MissingAccount(a))
    ensures a in After(ws).populatedAccounts <==> AccountNamed(ws, a)
    ensures forall i :: LastOfAccount(ws, i, a) ==>
      (if a in After(ws).accounts then Some(After(ws).accounts[a]) else None) == AccountBy(ws[i], a).value
    ensures AccountNamed(ws, a) ==> forall i :: LastOfAccount(ws, i, a) ==>
      ReadBasic(After(ws), a) == Ok(AccountBy(ws[i], a).value)
    ensures (forall i :: !LastOfAccount(ws, i, a)) ==> a !in After(ws).accounts
  {
    hide Apply, AccountBy, NamesAccount;
    if ws != [] {
      var init, w := ws[..|ws| - 1], ws[|ws| - 1];
      BasicIsLatest(init, a);
      AccountAfter(After(init), w, a);
      assert forall i :: 0 <= i < |init| ==> ws[i] == init[i];
      if AccountNamed(init, a) {
        var i :| 0 <= i < |init| && NamesAccount(init[i], a);
        assert NamesAccount(ws[i], a);
      }
      if NamesAccount(w, a) { assert NamesAccount(ws[|init|], a); }
      if AccountBy(w, a).Some? {
        assert LastOfAccount(ws, |init|, a);
      } else {
        forall i ensures LastOfAccount(ws, i, a) <==> LastOfAccount(init, i, a) {
        }
      }
    }
  }

  lemma AccountAfter(d: Strict, w: Write, a: Address)
    ensures var d' := Apply(d, w);
            && (a in d'.populatedAccounts <==> a in d.populatedAccounts || NamesAccount(w, a))
            && (if a in d'.accounts then Some(d'.accounts[a]) else None)
               == match AccountBy(w, a)
                  case Some(r) => r
                  case None => if a in d.accounts then Some(d.accounts[a]) else None
  {
  }

  /** The non-empty code an inserted account brings along under this hash. */
  function CodeBy(w: Write, h: CodeHash): Option<Code> {
    if w.AccountInserted? && w.info.codeHash == h && w.info.code.Some? && w.info.code.value != []
    then w.info.code else None
  }

  /** Position `i` is the first write to bring code along under this hash. */
  ghost predicate FirstOfCode(ws: seq<Write>, i: int, h: CodeHash) {
    0 <= i < |ws| && CodeBy(ws[i], h).Some? && forall j :: 0 <= j < i ==> CodeBy(ws[j], h).None?
  }

  /** `code_by_hash` gives the code first inserted under a hash; the empty hash has none, any other is a typed error. */
  lemma {:induction false} CodeIsFirst(ws: seq<Write>, h: CodeHash)
    ensures h == KECCAK_EMPTY ==> ReadCode(After(ws), h) == Ok([])
    ensures h != KECCAK_EMPTY ==>
      && (forall i :: FirstOfCode(ws, i, h) ==> ReadCode(After(ws), h) == Ok(CodeBy(ws[i], h).value))
      && ((forall i :: !FirstOfCode(ws, i, h)) ==> ReadCode(After(ws), h) == Err(MissingCodeHash(h)))
    ensures forall i :: FirstOfCode(ws, i, h) ==> h in After(ws).codes && After(ws).codes[h] == CodeBy(ws[i], h).value
    ensures (forall i :: !FirstOfCode(ws, i, h)) ==> h !in After(ws).codes
  {
    hide Apply, CodeBy;
    if ws != [] {
      var init, w := ws[..|ws| - 1], ws[|ws| - 1];
      CodeIsFirst(init, h);
      CodeAfter(After(init), w, h);
      forall i | 0 <= i < |ws| ensures CodeBy(ws[i], h).Some? ==> CodeBy(ws[i], h).value != [] {
        CodeIsNonEmpty(ws[i], h);
      }
      assert forall i :: 0 <= i < |init| ==> ws[i] == init[i];
      if i :| FirstOfCode(init, i, h) {
        assert FirstOfCode(ws, i, h);
      } else {
        NoCodeYet(init, h);
        if CodeBy(w, h).Some? { assert FirstOfCode(ws, |init|, h); }
      }
    }
  }

  lemma {:induction false} NoCodeYet(ws: seq<Write>, h: CodeHash)
    requires forall i :: !FirstOfCode(ws, i, h)
    ensures forall i :: 0 <= i < |ws| ==> CodeBy(ws[i], h).None?
  {
    hide CodeBy;
    if ws != [] {
      var init := ws[..|ws| - 1];
      forall i ensures !FirstOfCode(init, i, h) {
        assert !FirstOfCode(ws, i, h);
      }
      NoCodeYet(init, h);
      assert !FirstOfCode(ws, |init|, h);
    }
  }

  lemma CodeAfter(d: Strict, w: Write, h: CodeHash)
    ensures var d' := Apply(d, w);
            && (h in d'.codes <==> h in d.codes || CodeBy(w, h).Some?)
            && (h in d'.codes ==> d'.codes[h] == if h in d.codes then d.codes[h] else CodeBy(w, h).value)
  {
  }

  lemma CodeIsNonEmpty(w: Write, h: CodeHash)
    ensures CodeBy(w, h).Some? ==> CodeBy(w, h).value != []
  {
  }

  // ----- what stands in a slot --------------------------------------------------------------

  /** Position `i` stored the slot and nothing has stored or cleared it since. */
  ghost predicate StandsSince(ws: seq<Write>, i: int, a: Address, s: Slot) {
    && 0 <= i < |ws| && StoredBy(ws[i], a, s).Some?
    && forall j :: i < j < |ws| ==> StoredBy(ws[j], a, s).None? && !ClearedBy(ws[j], a)
  }

  /** There is a latest value if and only if some stored value still stands, and it is that one. */
  lemma {:induction false} LatestStands(ws: seq<Write>, a: Address, s: Slot)
    ensures Latest(ws, a, s).Some? <==> exists i :: StandsSince(ws, i, a, s)
    ensures forall i :: StandsSince(ws, i, a, s) ==> Latest(ws, a, s) == StoredBy(ws[i], a, s)
  {
    hide StoredBy, ClearedBy;
    if ws != [] {
      var init, w := ws[..|ws| - 1], ws[|ws| - 1];
      LatestStands(init, a, s);
      if StoredBy(w, a, s).Some? {
        assert StandsSince(ws, |init|, a, s);
      } else if !ClearedBy(w, a) && Latest(init, a, s).Some? {
        var i :| StandsSince(init, i, a, s);
        assert StandsSince(ws, i, a, s);
      }
      forall i | StandsSince(ws, i, a, s) ensures Latest(ws, a, s) == StoredBy(ws[i], a, s) {
        if i < |init| {
          assert StoredBy(ws[|init|], a, s).None? && !ClearedBy(ws[|init|], a);
          assert StandsSince(init, i, a, s);
        }
      }
    }
  }

  /** A populated slot reads as a zero that nobody stored. */
  predicate SilentZero(ws: seq<Write>, a: Address, s: Slot) {
    Named(ws, a, s) && Latest(ws, a, s).None?
  }

  /**
   * That happens exactly for a slot that was named while every value stored in it has been cleared since, if any was.
   */
  lemma SilentZeroExactlyWhen(ws: seq<Write>, a: Address, s: Slot)
    ensures SilentZero(ws, a, s) <==> Named(ws, a, s) && forall i :: !StandsSince(ws, i, a, s)
    ensures SilentZero(ws, a, s) ==> ReadStorage(After(ws), a, s) == Ok(0)
  {
    hide Named, StandsSince, After;
    LatestStands(ws, a, s);
    ReadsAreLatest(ws, a, s);
  }

  lemma {:induction false} LatestIsNamed(ws: seq<Write>, a: Address, s: Slot)
    ensures Latest(ws, a, s).Some? ==> Named(ws, a, s)
  {
    hide NamedBy, StoredBy, ClearedBy;
    if ws != [] {
      LatestIsNamed(ws[..|ws| - 1], a, s);
      StoredIsNamed(ws[|ws| - 1], a, s);
    }
  }

  lemma StoredIsNamed(w: Write, a: Address, s: Slot)
    ensures StoredBy(w, a, s).Some? ==> NamedBy(w, a, s)
  {
  }

  /**
   * What a caller can check before one write: it leaves a silent zero behind exactly if it does not store the slot
   * and either clears the account of a slot that is or becomes populated, or clears nothing and keeps a silent zero
   * or lists the slot for the first time.
   */
  lemma SilentZeroAfterWrite(ws: seq<Write>, w: Write, a: Address, s: Slot)
    ensures SilentZero(ws + [w], a, s) <==>
      && StoredBy(w, a, s).None?
      && if ClearedBy(w, a) then Named(ws, a, s) || NamedBy(w, a, s)
         else SilentZero(ws, a, s) || (NamedBy(w, a, s) && !Named(ws, a, s))
    ensures Named(ws, a, s) <==> (a, s) in After(ws).populatedStorage
  {
    hide NamedBy, StoredBy, ClearedBy, After;
    assert (ws + [w])[..|ws|] == ws;
    LatestIsNamed(ws, a, s);
    StoredIsNamed(w, a, s);
    ReadsAreLatest(ws, a, s);
  }

  /** The write clears nothing of `a`, and where it lists the slot without storing it, the slot was named before. */
  predicate Harmless(ws: seq<Write>, i: nat, a: Address, s: Slot)
    requires i < |ws|
  {
    !ClearedBy(ws[i], a) && (NamedBy(ws[i], a, s) && StoredBy(ws[i], a, s).None? ==> Named(ws[..i], a, s))
  }

  /**
   * As long as `a` is not created or destroyed and lists, while untouched, only slots that were named before, a
   * slot of it never reads as a silent zero: it is missing or holds what was last stored.
   */
  lemma {:induction false} HarmlessHistoryHasNoSilentZero(ws: seq<Write>, a: Address, s: Slot)
    requires forall i :: 0 <= i < |ws| ==> Harmless(ws, i, a, s)
    ensures !SilentZero(ws, a, s)
  {
    hide NamedBy, StoredBy, ClearedBy;
    if ws != [] {
      var init := ws[..|ws| - 1];
      forall i | 0 <= i < |init| ensures Harmless(init, i, a, s) {
        assert Harmless(ws, i, a, s) && init[..i] == ws[..i];
      }
      HarmlessHistoryHasNoSilentZero(init, a, s);
      assert Harmless(ws, |init|, a, s);
      StoredIsNamed(ws[|init|], a, s);
    }
  }

  /** An untouched account's listed slot is one: committed with the value 5, it reads as zero instead of as missing. */
  lemma UntouchedListingIsSilentZero(a: Address, s: Slot, info: AccountInfo)
    ensures var ws := [ChangesCommitted(map[a := Change(false, false, false, info, map[s := 5])])];
            SilentZero(ws, a, s) && ReadStorage(After(ws), a, s) == Ok(0)
  {
    var w := ChangesCommitted(map[a := Change(false, false, false, info, map[s := 5])]);
    assert [w][..0] == [];
    assert NamedBy(w, a, s) && StoredBy(w, a, s) == None && !ClearedBy(w, a);
    assert SilentZero([w], a, s);
    SilentZeroExactlyWhen([w], a, s);
  }

  /** Creating an account is another: a value inserted before the commit reads as zero after it. */
  lemma CreationIsSilentZero(a: Address, s: Slot, info: AccountInfo)
    ensures var ws := [StorageInserted(a, s, 7), ChangesCommitted(map[a := Change(true, true, false, info, map[])])];
            SilentZero(ws, a, s) && ReadStorage(After(ws), a, s) == Ok(0)
  {
    var w0, w1 := StorageInserted(a, s, 7), ChangesCommitted(map[a := Change(true, true, false, info, map[])]);
    assert [w0][..0] == [] && [w0] + [w1] == [w0, w1];
    assert NamedBy(w0, a, s) && Named([w0], a, s);
    assert StoredBy(w1, a, s) == None && ClearedBy(w1, a);
    SilentZeroAfterWrite([w0], w1, a, s);
    SilentZeroExactlyWhen([w0, w1], a, s);
  }

  /** The commits among some exchanges, in order. */
  function CommitsOf<E>(xs: seq<Exchange<E>>): seq<Write> {
    if xs == [] then []
    else
      var last := xs[|xs| - 1];
      CommitsOf(xs[..|xs| - 1]) + (if last.request.DoCommit? then [ChangesCommitted(last.request.changes)] else [])
  }

  lemma AfterOneMore(ws: seq<Write>, w: Write)
    ensures After(ws + [w]) == Apply(After(ws), w)
  {
    hide Commit, InsertAccount, InsertStorage;
    assert (ws + [w])[..|ws|] == ws;
  }

  lemma ServeStrict(d: Strict, q: Request)
    ensures Serve(StrictDb(), d, q).1 == if q.DoCommit? then Commit(d, q.changes) else d
    ensures q.AskBasic? ==> Serve(StrictDb(), d, q).0 == BasicReply(ReadBasic(d, q.address))
    ensures q.AskCode? ==> Serve(StrictDb(), d, q).0 == CodeReply(ReadCode(d, q.codeHash))
    ensures q.AskStorage? ==> Serve(StrictDb(), d, q).0 == StorageReply(ReadStorage(d, q.addr, q.slot))
    ensures q.AskBlockHash? ==> Serve(StrictDb(), d, q).0 == BlockHashReply(Err(MissingBlockHash(q.number)))
    ensures q.DoCommit? ==> Serve(StrictDb(), d, q).0 == Committed
  {
    hide Commit, ReadStorage, ReadBasic, ReadCode;
  }

  lemma CommitsOfOneMore<E>(xs: seq<Exchange<E>>, x: Exchange<E>)
    ensures CommitsOf(xs + [x])
      == CommitsOf(xs) + (if x.request.DoCommit? then [ChangesCommitted(x.request.changes)] else [])
  {
    assert (xs + [x])[..|xs|] == xs;
  }

  lemma {:induction false} StateIsHistory<S(!new)>(c: Client<S, StrictMissingError>, s: S, ws: seq<Write>, n: nat)
    ensures var run := Converse(StrictDb(), c, s, After(ws), n);
            run.db == After(ws + CommitsOf(run.exchanges)) && |run.exchanges| <= n
    decreases n
  {
    hide Serve, Commit, After, CommitsOf;
    if n == 0 {
      NoCommits<StrictMissingError>();
      assert ws + [] == ws;
    } else {
      StateIsHistory(c, s, ws, n - 1);
      var before := Converse(StrictDb(), c, s, After(ws), n - 1);
      var next := c.next(before.client);
      if next.Some? {
        var q := next.value;
        var x := Exchange(q, Serve(StrictDb(), before.db, q).0);
        var commits := CommitsOf(before.exchanges);
        ServeStrict(before.db, q);
        CommitsOfOneMore(before.exchanges, x);
        if q.DoCommit? {
          AfterOneMore(ws + commits, ChangesCommitted(q.changes));
          assert ws + (commits + [ChangesCommitted(q.changes)]) == ws + commits + [ChangesCommitted(q.changes)];
        } else {
          assert commits + [] == commits;
        }
      }
    }
  }

  lemma NoCommits<E>()
    ensures CommitsOf<E>([]) == []
  {
  }

  /** Every reply of any kind is the one the strict database gives after the writes before it. */
  lemma {:induction false} EveryReplyFollowsHistory<S(!new)>(c: Client<S, StrictMissingError>, s: S, ws: seq<Write>,
                                                             n: nat, i: nat)
    requires i < |Converse(StrictDb(), c, s, After(ws), n).exchanges|
    ensures var xs := Converse(StrictDb(), c, s, After(ws), n).exchanges;
            var d, q := After(ws + CommitsOf(xs[..i])), xs[i].request;
            xs[i].reply == match q
              case AskBasic(a) => BasicReply(ReadBasic(d, a))
              case AskCode(h) => CodeReply(ReadCode(d, h))
              case AskStorage(a, slot) => StorageReply(ReadStorage(d, a, slot))
              case AskBlockHash(number) => BlockHashReply(Err(MissingBlockHash(number)))
              case DoCommit(_) => Committed
    decreases n
  {
    hide After, ReadStorage, ReadBasic, ReadCode, Serve;
    if n > 0 {
      var run := Converse(StrictDb(), c, s, After(ws), n);
      var before := Converse(StrictDb(), c, s, After(ws), n - 1);
      if i < |before.exchanges| {
        EveryReplyFollowsHistory(c, s, ws, n - 1, i);
        assert run.exchanges[..i] == before.exchanges[..i];
      } else {
        StateIsHistory(c, s, ws, n - 1);
        assert run.exchanges[..i] == before.exchanges;
        ServeStrict(before.db, run.exchanges[i].request);
      }
    }
  }

  /**
   * Over a strict database with any history, whatever the client does: every storage read is answered from the
   * writes inserted before the run or committed during it, as `Answer` says.
   */
  lemma EveryReadIsLatest<S(!new)>(c: Client<S, StrictMissingError>, s: S, ws: seq<Write>, n: nat, i: nat)
    requires i < |Converse(StrictDb(), c, s, After(ws), n).exchanges|
    requires Converse(StrictDb(), c, s, After(ws), n).exchanges[i].request.AskStorage?
    ensures var xs := Converse(StrictDb(), c, s, After(ws), n).exchanges;
            var q := xs[i].request;
            xs[i].reply == StorageReply(Answer(ws + CommitsOf(xs[..i]), q.addr, q.slot))
  {
    hide Converse, Latest, Named, After, ReadStorage;
    var xs := Converse(StrictDb(), c, s, After(ws), n).exchanges;
    EveryReplyFollowsHistory(c, s, ws, n, i);
    ReadsAreLatest(ws + CommitsOf(xs[..i]), xs[i].request.addr, xs[i].request.slot);
  }

  /** The exchange that produced the `j`-th recorded read. */
  lemma {:induction false} ReadBehind<E>(xs: seq<Exchange<E>>, j: nat) returns (i: nat)
    requires j < |ReadsOf(xs)|
    ensures i < |xs| && xs[i].request.AskStorage? && xs[i].reply.StorageReply? && xs[i].reply.word.Ok?
    ensures ReadsOf(xs)[j] == StateObservation(xs[i].request.addr, xs[i].request.slot, xs[i].reply.word.value)
    decreases |xs|
  {
    var init := xs[..|xs| - 1];
    if j < |ReadsOf(init)| {
      i := ReadBehind(init, j);
    } else {
      i := |xs| - 1;
    }
  }

  /** So what a recorded strict run notes is, entry by entry, the latest value at the moment of that read. */
  lemma RecordedValuesAreLatest<S(!new)>(c: Client<S, StrictMissingError>, s: S, ws: seq<Write>, n: nat, j: nat)
    returns (i: nat)
    requires j < |Converse(Recording(StrictDb()), c, s, Recorded(After(ws), []), n).db.observed|
    ensures var run := Converse(Recording(StrictDb()), c, s, Recorded(After(ws), []), n);
            && i < |run.exchanges|
            && var seen := run.db.observed[j];
            && run.exchanges[i].request == AskStorage(seen.account, seen.slot)
            && Named(ws + CommitsOf(run.exchanges[..i]), seen.account, seen.slot)
            && OrZero(Latest(ws + CommitsOf(run.exchanges[..i]), seen.account, seen.slot)) == seen.value
  {
    hide Latest, Named, After, Serve;
    RecordingIsTransparent(StrictDb(), c, s, After(ws), n);
    i := ReadBehind(Converse(StrictDb(), c, s, After(ws), n).exchanges, j);
    EveryReadIsLatest(c, s, ws, n, i);
  }

  /** Populated accounts and slots only ever grow. */
  lemma {:induction false} PopulatedOnlyGrows(ws: seq<Write>, more: seq<Write>)
    ensures After(ws).populatedStorage <= After(ws + more).populatedStorage
    ensures After(ws).populatedAccounts <= After(ws + more).populatedAccounts
    decreases |more|
  {
    if more == [] {
      assert ws + more == ws;
    } else {
      var init := more[..|more| - 1];
      PopulatedOnlyGrows(ws, init);
      assert (ws + more)[..|ws + more| - 1] == ws + init;
    }
  }
}
