// Dashboard sessions: internal/browsersession/session.go. Instants and durations are counted in
// nanoseconds from Go's zero time; callers pass the token's hash instead of the token.

module Sessions {
  import opened GoSlices
  import opened GoText

  const HOUR := 3600000000000
  const DEFAULT_IDLE := 7 * 24 * HOUR
  const DEFAULT_LIFETIME := 7 * 24 * HOUR
  const DEFAULT_ELEVATION := HOUR / 4
  const HASH_SIZE := 32

  datatype Config = Config(idle: int, lifetime: int, elevation: int, persist: bool, path: string, keepElevation: bool)

  // elevatedUntil 0 is the zero time: not elevated.
  datatype Session = Session(createdAt: int, lastSeen: int, elevatedUntil: int, tokenHash: seq<Byte>)

  type Table = map<string, Session>

  // applyConfigLocked
  function Settings(cfg: Config): Config {
    var path := TrimSpace(cfg.path);
    Config(if cfg.idle <= 0 then DEFAULT_IDLE else cfg.idle,
           if cfg.lifetime <= 0 then DEFAULT_LIFETIME else cfg.lifetime,
           if cfg.elevation <= 0 then DEFAULT_ELEVATION else cfg.elevation,
           cfg.persist && path != "",
           path,
           cfg.keepElevation)
  }

  predicate TimeValid(c: Config, s: Session, now: int) {
    now - s.lastSeen <= c.idle && now - s.createdAt <= c.lifetime
  }

  predicate SessionValid(c: Config, s: Session, now: int, hash: seq<Byte>) {
    TimeValid(c, s, now) && s.tokenHash == hash
  }

  // ---------------------------------------------------------------- hexadecimal

  function HexDigit(n: int): char
    requires 0 <= n < 16
  {
    if n < 10 then ('0' as int + n) as char else ('a' as int + (n - 10)) as char
  }

  function HexValue(c: char): Option<int> {
    if '0' <= c <= '9' then Some(c as int - '0' as int)
    else if 'a' <= c <= 'f' then Some(c as int - 'a' as int + 10)
    else if 'A' <= c <= 'F' then Some(c as int - 'A' as int + 10)
    else None
  }

  function HexEncode(bytes: seq<Byte>): (s: string)
    ensures |s| == 2 * |bytes|
    ensures forall i :: 0 <= i < |s| ==> !IsSpace(s[i])
  {
    if bytes == [] then ""
    else [HexDigit(bytes[0] as int / 16), HexDigit(bytes[0] as int % 16)] + HexEncode(bytes[1..])
  }

  function HexDecode(s: string): Option<seq<Byte>> {
    if s == "" then Some([])
    else if |s| == 1 then None
    else
      match (HexValue(s[0]), HexValue(s[1]), HexDecode(s[2..]))
      case (Some(high), Some(low), Some(rest)) =>
        if 0 <= high * 16 + low < 256 then Some([(high * 16 + low) as Byte] + rest) else None
      case _ => None
  }

  // The digits, in either case when they are read.
  lemma HexDigitsAre(n: int)
    requires 0 <= n < 16
    ensures HexDigit(n) == "0123456789abcdef"[n] && HexValue("0123456789abcdef"[n]) == Some(n) == HexValue("0123456789ABCDEF"[n])
  {
  }

  lemma HexPair(b: Byte)
    ensures var high, low := HexDigit(b as int / 16), HexDigit(b as int % 16);
            HexValue(high) == Some(b as int / 16) && HexValue(low) == Some(b as int % 16)
  {
  }

  lemma {:induction false} HexRoundTrip(bytes: seq<Byte>)
    ensures HexDecode(HexEncode(bytes)) == Some(bytes)
    ensures TrimSpace(HexEncode(bytes)) == HexEncode(bytes)
  {
    TrimmedIsFixed(HexEncode(bytes));
    if bytes != [] {
      HexRoundTrip(bytes[1..]);
      HexPair(bytes[0]);
      var b := bytes[0] as int;
      assert HexEncode(bytes)[2..] == HexEncode(bytes[1..]);
      assert HexEncode(bytes)[0] == HexDigit(b / 16) && HexEncode(bytes)[1] == HexDigit(b % 16);
      assert b / 16 * 16 + b % 16 == b;
      assert bytes == [bytes[0]] + bytes[1..];
    }
  }

  // ---------------------------------------------------------------- the session file

  datatype Record = Record(id: string, createdAt: int, lastSeen: int, elevatedUntil: int, tokenHash: string)

  function ToRecord(c: Config, id: string, s: Session): Record {
    Record(id, s.createdAt, s.lastSeen, if c.keepElevation then s.elevatedUntil else 0, HexEncode(s.tokenHash))
  }

  // The file lists exactly the sessions of the table, each once, in some order.
  ghost predicate Lists(records: seq<Record>, c: Config, t: Table) {
    && (forall i :: 0 <= i < |records| ==> records[i].id in t && records[i] == ToRecord(c, records[i].id, t[records[i].id]))
    && (forall i, j :: 0 <= i < j < |records| ==> records[i].id != records[j].id)
    && (forall id :: id in t ==> Listed(records, id))
  }

  ghost predicate Listed(records: seq<Record>, id: string) {
    exists i :: 0 <= i < |records| && records[i].id == id
  }

  // What loading makes of one record; nothing if it is refused.
  function FromRecord(c: Config, r: Record, now: int): Option<(string, Session)> {
    match HexDecode(TrimSpace(r.tokenHash))
    case None => None
    case Some(hash) =>
      var s := Session(r.createdAt, r.lastSeen, if c.keepElevation then r.elevatedUntil else 0, hash);
      if |hash| != HASH_SIZE || !TimeValid(c, s, now) || TrimSpace(r.id) == "" then None
      else Some((TrimSpace(r.id), s))
  }

  function Load(c: Config, records: seq<Record>, now: int): Table {
    if records == [] then map[]
    else
      var rest := Load(c, records[..|records| - 1], now);
      match FromRecord(c, records[|records| - 1], now)
      case None => rest
      case Some((id, s)) => rest[id := s]
  }

  // Every table the manager builds: trimmed, non-empty IDs and full-size hashes.
  predicate GoodTable(t: Table) {
    forall id :: id in t ==> id != "" && Trimmed(id) && |t[id].tokenHash| == HASH_SIZE
  }

  function Survivor(c: Config, s: Session): Session {
    if c.keepElevation then s else s.(elevatedUntil := 0)
  }

  lemma ListedOneMore(records: seq<Record>, r: Record)
    ensures forall id :: Listed(records + [r], id) <==> Listed(records, id) || id == r.id
  {
    var more := records + [r];
    assert more[|records|] == r;
    forall id ensures Listed(more, id) <==> Listed(records, id) || id == r.id {
      if Listed(records, id) {
        var i :| 0 <= i < |records| && records[i].id == id;
        assert more[i].id == id;
      }
    }
  }

  lemma RecordNamesSession(c: Config, id: string, s: Session)
    ensures ToRecord(c, id, s).id == id
  {
  }

  lemma RecordRoundTrip(c: Config, id: string, s: Session, now: int)
    requires id != "" && Trimmed(id) && |s.tokenHash| == HASH_SIZE
    ensures FromRecord(c, ToRecord(c, id, s), now) == if TimeValid(c, s, now) then Some((id, Survivor(c, s))) else None
  {
    HexRoundTrip(s.tokenHash);
    TrimmedIsFixed(id);
  }

  lemma {:induction false} LoadOfListed(c: Config, records: seq<Record>, t: Table, now: int)
    requires GoodTable(t)
    requires forall i :: 0 <= i < |records| ==> records[i].id in t && records[i] == ToRecord(c, records[i].id, t[records[i].id])
    ensures forall id :: id in Load(c, records, now)
              <==> Listed(records, id) && TimeValid(c, t[id], now)
    ensures forall id :: id in Load(c, records, now) ==> id in t && Load(c, records, now)[id] == Survivor(c, t[id])
  {
    assert forall id :: !Listed([], id);
    hide Listed, ToRecord, FromRecord, TimeValid, Survivor, Trimmed;
    if records != [] {
      var front, last := records[..|records| - 1], records[|records| - 1];
      LoadOfListed(c, front, t, now);
      RecordRoundTrip(c, last.id, t[last.id], now);
      ListedOneMore(front, last);
      assert records == front + [last];
    }
  }

  // Loading what was saved, under the same settings, gives exactly the sessions still valid in time,
  // with their times and hash, and their elevation only if it is kept.
  lemma SaveThenLoad(c: Config, records: seq<Record>, t: Table, now: int)
    requires GoodTable(t) && Lists(records, c, t)
    ensures Load(c, records, now) == map id | id in t && TimeValid(c, t[id], now) :: Survivor(c, t[id])
    ensures forall id :: id in Load(c, records, now) <==> id in t && now - t[id].lastSeen <= c.idle && now - t[id].createdAt <= c.lifetime
    ensures forall id :: id in Load(c, records, now) ==>
              var x := Load(c, records, now)[id];
              && x.createdAt == t[id].createdAt && x.lastSeen == t[id].lastSeen && x.tokenHash == t[id].tokenHash
              && x.elevatedUntil == if c.keepElevation then t[id].elevatedUntil else 0
  {
    LoadOfListed(c, records, t, now);
    assert forall id :: id in t ==> Listed(records, id);
    hide Load, Listed, GoodTable, ToRecord;
  }

  // A record counts if its hash has the right form, its session is in time and its ID is not blank.
  predicate Counts(c: Config, r: Record, now: int) {
    && HexDecode(TrimSpace(r.tokenHash)).Some? && |HexDecode(TrimSpace(r.tokenHash)).value| == 32
    && now - r.lastSeen <= c.idle && now - r.createdAt <= c.lifetime
    && TrimSpace(r.id) != ""
  }

  // The session a record stands for.
  function Stands(c: Config, r: Record): Session
    requires HexDecode(TrimSpace(r.tokenHash)).Some?
  {
    Session(r.createdAt, r.lastSeen, if c.keepElevation then r.elevatedUntil else 0, HexDecode(TrimSpace(r.tokenHash)).value)
  }

  predicate CountsFor(c: Config, r: Record, id: string, now: int) {
    Counts(c, r, now) && TrimSpace(r.id) == id
  }

  predicate LastFor(c: Config, records: seq<Record>, id: string, now: int, i: int) {
    && 0 <= i < |records| && CountsFor(c, records[i], id, now)
    && forall j :: i < j < |records| ==> !CountsFor(c, records[j], id, now)
  }

  lemma LastOneMore(c: Config, front: seq<Record>, last: Record, id: string, now: int, i: int)
    ensures LastFor(c, front + [last], id, now, i)
       <==> if CountsFor(c, last, id, now) then i == |front| else LastFor(c, front, id, now, i)
  {
    hide CountsFor;
    var all := front + [last];
    assert all[|front|] == last && forall j :: 0 <= j < |front| ==> all[j] == front[j];
  }

  // Whatever the file holds: a session is loaded from the last record that counts for it, and there are no
  // others.
  lemma {:induction false} LoadExactly(c: Config, records: seq<Record>, now: int, id: string)
    ensures id in Load(c, records, now) <==> exists i :: LastFor(c, records, id, now, i)
    ensures forall i :: LastFor(c, records, id, now, i) ==> id in Load(c, records, now) && Load(c, records, now)[id] == Stands(c, records[i])
  {
    hide LastFor, Counts, FromRecord, HexDecode, TrimSpace, Stands;
    if records == [] {
      NoneIsLast(c, id, now);
    } else {
      var front, last := records[..|records| - 1], records[|records| - 1];
      assert records == front + [last];
      LoadExactly(c, front, now, id);
      RecordCounts(c, last, now);
      forall i ensures LastFor(c, records, id, now, i)
                  <==> if CountsFor(c, last, id, now) then i == |front| else LastFor(c, front, id, now, i) {
        LastOneMore(c, front, last, id, now, i);
      }
      forall i | LastFor(c, front, id, now, i) ensures 0 <= i < |front| {
        LastIsThere(c, front, id, now, i);
      }
      if CountsFor(c, last, id, now) {
        assert LastFor(c, records, id, now, |front|);
      } else if i :| LastFor(c, front, id, now, i) {
        assert LastFor(c, records, id, now, i);
      }
    }
  }

  lemma NoneIsLast(c: Config, id: string, now: int)
    ensures forall i :: !LastFor(c, [], id, now, i)
  {
  }

  lemma LastIsThere(c: Config, records: seq<Record>, id: string, now: int, i: int)
    requires LastFor(c, records, id, now, i)
    ensures 0 <= i < |records| && HexDecode(TrimSpace(records[i].tokenHash)).Some?
  {
  }

  lemma RecordCounts(c: Config, r: Record, now: int)
    ensures FromRecord(c, r, now)
         == if !Counts(c, r, now) then None
            else Some((TrimSpace(r.id), Stands(c, r)))
  {
    hide HexDecode, TrimSpace;
  }

  lemma {:induction false} LoadedIsGood(c: Config, records: seq<Record>, now: int)
    ensures GoodTable(Load(c, records, now))
  {
    if records != [] {
      LoadedIsGood(c, records[..|records| - 1], now);
      TrimSpaceTrims(records[|records| - 1].id);
    }
  }

  // ---------------------------------------------------------------- the operations

  datatype Op =
    | Create(id: string, hash: seq<Byte>, now: int)
    | Validate(id: string, hash: seq<Byte>, now: int)
    | Elevate(id: string, hash: seq<Byte>, now: int)
    | IsElevated(id: string, hash: seq<Byte>, now: int)
    | Revoke(id: string)
    | UpdateConfig(cfg: Config, now: int)

  // Dropped: the session existed and was found expired or bound to another token.
  datatype Outcome = Granted | NotElevated | Dropped | Unknown

  datatype State = State(settings: Config, table: Table)

  function Pruned(c: Config, t: Table, now: int): Table {
    map id | id in t && TimeValid(c, t[id], now) :: t[id]
  }

  // A session presented with a token: what happens to it, and the session as the operation updates it.
  function Present(s: State, id: string, hash: seq<Byte>, now: int, touched: Session): (Table, Outcome) {
    if id == "" || id !in s.table then (s.table, Unknown)
    else if !SessionValid(s.settings, s.table[id], now, hash) then (s.table - {id}, Dropped)
    else (s.table[id := touched], Granted)
  }

  function Find(s: State, id: string): Session {
    if id in s.table then s.table[id] else Session(0, 0, 0, [])
  }

  function Step(s: State, op: Op): (State, Outcome) {
    match op
    case Create(id, hash, now) => (s.(table := s.table[id := Session(now, now, 0, hash)]), Granted)
    case Validate(raw, hash, now) =>
      var id := TrimSpace(raw);
      var (t, o) := Present(s, id, hash, now, Find(s, id).(lastSeen := now));
      (s.(table := t), o)
    case Elevate(raw, hash, now) =>
      var id := TrimSpace(raw);
      var (t, o) := Present(s, id, hash, now, Find(s, id).(lastSeen := now, elevatedUntil := now + s.settings.elevation));
      (s.(table := t), o)
    case IsElevated(raw, hash, now) =>
      var id := TrimSpace(raw);
      var (t, o) := Present(s, id, hash, now, Find(s, id));
      var elevated := Find(s, id).elevatedUntil != 0 && now <= Find(s, id).elevatedUntil;
      (s.(table := t), if o == Granted && !elevated then NotElevated else o)
    case Revoke(raw) => (if TrimSpace(raw) == "" then s else s.(table := s.table - {TrimSpace(raw)}), Unknown)
    case UpdateConfig(cfg, now) =>
      (State(Settings(cfg), Pruned(Settings(cfg), s.table, now)), Unknown)
  }

  // The operations after which the file is written: not IsElevated, and no other that finds no session.
  predicate Writes(s: State, op: Op) {
    match op
    case Create(_, _, _) => true
    case Validate(_, _, _) => Step(s, op).1 != Unknown
    case Elevate(_, _, _) => Step(s, op).1 != Unknown
    case IsElevated(_, _, _) => false
    case Revoke(raw) => TrimSpace(raw) != ""
    case UpdateConfig(_, _) => true
  }

  function FiledAfter(s: State, op: Op, filed: Table): Table {
    if Writes(s, op) then Step(s, op).0.table else filed
  }

  // ---------------------------------------------------------------- the manager

  class Manager {
    var settings: Config
    var sessions: Table
    var disk: map<string, seq<Record>>

    ghost var filed: Table  // the table when the file was last written

    ghost predicate Valid()
      reads this
    {
      GoodTable(sessions) && settings == Settings(settings) && OnDisk()
    }

    // The file on disk, if sessions are kept there, lists the table of the last writing; there is none
    // before the first session.
    ghost predicate OnDisk()
      reads this
    {
      settings.persist ==>
        if settings.path in disk then Lists(disk[settings.path], settings, filed) else filed == map[]
    }

    ghost function View(): State
      reads this
    {
      State(settings, sessions)
    }

    // The file on disk, if sessions are kept there, is a listing of the table.
    ghost predicate Synced()
      reads this
    {
      settings.persist ==> settings.path in disk && Lists(disk[settings.path], settings, sessions)
    }

    // NewManager
    constructor (cfg: Config, initialDisk: map<string, seq<Record>>, now: int)
      ensures Valid()
      ensures settings == Settings(cfg)
      ensures sessions == if settings.persist && settings.path in initialDisk
                          then Load(settings, initialDisk[settings.path], now) else map[]
      ensures settings.persist && settings.path in initialDisk ==> Synced()
      ensures filed == sessions
      ensures !(settings.persist && settings.path in initialDisk) ==> disk == initialDisk
    {
      settings := Settings(cfg);
      sessions := map[];
      disk := initialDisk;
      filed := map[];
      new;
      SettingsAreStable(cfg);
      if settings.persist && settings.path in disk {
        LoadedIsGood(settings, disk[settings.path], now);
        sessions := LoadRecords(settings, disk[settings.path], now);
        Save();
      }
    }

    static method LoadRecords(c: Config, records: seq<Record>, now: int) returns (loaded: Table)
      ensures loaded == Load(c, records, now)
    {
      loaded := map[];
      for i := 0 to |records|
        invariant loaded == Load(c, records[..i], now)
      {
        assert records[..i + 1][..i] == records[..i];
        var hash := HexDecode(TrimSpace(records[i].tokenHash));
        if hash.None? || |hash.value| != HASH_SIZE {
          continue;
        }
        var state := Session(records[i].createdAt, records[i].lastSeen, records[i].elevatedUntil, hash.value);
        if !c.keepElevation {
          state := state.(elevatedUntil := 0);
        }
        if !TimeValid(c, state, now) {
          continue;
        }
        var id := TrimSpace(records[i].id);
        if id == "" {
          continue;
        }
        loaded := loaded[id := state];
      }
      assert records[..|records|] == records;
    }

    // saveLocked: the map is iterated in no particular order.
    method Save()
      modifies this`disk, this`filed
      ensures Synced() && filed == sessions
      ensures disk.Keys == old(disk).Keys + if settings.persist then {settings.path} else {}
      ensures forall p :: p in old(disk) && !(settings.persist && p == settings.path) ==> disk[p] == old(disk)[p]
    {
      hide ToRecord, Listed;
      filed := sessions;
      if !settings.persist {
        return;
      }
      var records: seq<Record> := [];
      var left := sessions.Keys;
      while left != {}
        invariant left <= sessions.Keys
        invariant forall i :: 0 <= i < |records| ==> records[i].id in sessions.Keys - left
        invariant forall i :: 0 <= i < |records| ==> records[i] == ToRecord(settings, records[i].id, sessions[records[i].id])
        invariant forall i, j :: 0 <= i < j < |records| ==> records[i].id != records[j].id
        invariant forall id :: id in sessions.Keys && id !in left ==> Listed(records, id)
        invariant unchanged(this`settings) && unchanged(this`sessions) && unchanged(this`disk) && filed == sessions
        decreases left
      {
        var id :| id in left;
        ghost var before := records;
        RecordNamesSession(settings, id, sessions[id]);
        records := records + [ToRecord(settings, id, sessions[id])];
        left := left - {id};
        ListedOneMore(before, ToRecord(settings, id, sessions[id]));
      }
      disk := disk[settings.path := records];
    }

    // The session's ID is the hexadecimal form of 32 random bytes.
    method CreateSession(random: seq<Byte>, hash: seq<Byte>, now: int) returns (id: string)
      requires Valid() && |random| == 32 && |hash| == HASH_SIZE
      modifies this
      ensures Valid() && Synced()
      ensures id == HexEncode(random) && View() == Step(old(View()), Create(id, hash, now)).0
      ensures filed == FiledAfter(old(View()), Create(id, hash, now), old(filed))
    {
      HexRoundTrip(random);
      TrimmedIsFixed(HexEncode(random));
      id := HexEncode(random);
      sessions := sessions[id := Session(now, now, 0, hash)];
      Save();
    }

    method ValidateSession(rawId: string, hash: seq<Byte>, now: int) returns (ok: bool)
      requires Valid()
      modifies this
      ensures Valid()
      ensures View() == Step(old(View()), Validate(rawId, hash, now)).0
      ensures ok <==> Step(old(View()), Validate(rawId, hash, now)).1 == Granted
      ensures if Step(old(View()), Validate(rawId, hash, now)).1 == Unknown then disk == old(disk) else Synced()
      ensures filed == FiledAfter(old(View()), Validate(rawId, hash, now), old(filed))
    {
      var id := TrimSpace(rawId);
      if id == "" {
        return false;
      }
      if id !in sessions {
        return false;
      }
      var state := sessions[id];
      if !SessionValid(settings, state, now, hash) {
        sessions := sessions - {id};
        Save();
        return false;
      }
      state := state.(lastSeen := now);
      sessions := sessions[id := state];
      Save();
      return true;
    }

    method ElevateSession(rawId: string, hash: seq<Byte>, now: int) returns (ok: bool)
      requires Valid()
      modifies this
      ensures Valid()
      ensures View() == Step(old(View()), Elevate(rawId, hash, now)).0
      ensures ok <==> Step(old(View()), Elevate(rawId, hash, now)).1 == Granted
      ensures if Step(old(View()), Elevate(rawId, hash, now)).1 == Unknown then disk == old(disk) else Synced()
      ensures filed == FiledAfter(old(View()), Elevate(rawId, hash, now), old(filed))
    {
      var id := TrimSpace(rawId);
      if id == "" {
        return false;
      }
      if id !in sessions {
        return false;
      }
      var state := sessions[id];
      if !SessionValid(settings, state, now, hash) {
        sessions := sessions - {id};
        Save();
        return false;
      }
      state := state.(lastSeen := now, elevatedUntil := now + settings.elevation);
      sessions := sessions[id := state];
      Save();
      return true;
    }

    // Unlike the other operations this one never writes the file, even when it drops the session.
    method CheckElevated(rawId: string, hash: seq<Byte>, now: int) returns (ok: bool)
      requires Valid()
      modifies this
      ensures Valid()
      ensures View() == Step(old(View()), IsElevated(rawId, hash, now)).0
      ensures ok <==> Step(old(View()), IsElevated(rawId, hash, now)).1 == Granted
      ensures disk == old(disk)
      ensures filed == FiledAfter(old(View()), IsElevated(rawId, hash, now), old(filed))
    {
      var id := TrimSpace(rawId);
      if id == "" {
        return false;
      }
      if id !in sessions {
        return false;
      }
      var state := sessions[id];
      if !SessionValid(settings, state, now, hash) {
        sessions := sessions - {id};
        return false;
      }
      return state.elevatedUntil != 0 && now <= state.elevatedUntil;
    }

    method RevokeSession(rawId: string)
      requires Valid()
      modifies this
      ensures Valid()
      ensures View() == Step(old(View()), Revoke(rawId)).0
      ensures if TrimSpace(rawId) == "" then disk == old(disk) else Synced()
      ensures filed == FiledAfter(old(View()), Revoke(rawId), old(filed))
    {
      var id := TrimSpace(rawId);
      if id == "" {
        return;
      }
      sessions := sessions - {id};
      Save();
    }

    // The old file is deleted when sessions are no longer kept there.
    method Reconfigure(cfg: Config, now: int)
      requires Valid()
      modifies this
      ensures Valid() && Synced()
      ensures View() == Step(old(View()), UpdateConfig(cfg, now)).0
      ensures old(settings.persist) && !(settings.persist && settings.path == old(settings.path)) ==> old(settings.path) !in disk
      ensures filed == FiledAfter(old(View()), UpdateConfig(cfg, now), old(filed))
    {
      var oldPath, oldPersist := settings.path, settings.persist;
      settings := Settings(cfg);
      SettingsAreStable(cfg);
      sessions := PruneExpired(settings, sessions, now);
      Save();
      if oldPersist && oldPath != "" && (!settings.persist || oldPath != settings.path) {
        disk := disk - {oldPath};
      }
    }

    static method PruneExpired(c: Config, t: Table, now: int) returns (kept: Table)
      ensures kept == Pruned(c, t, now)
    {
      kept := t;
      var left := t.Keys;
      while left != {}
        invariant left <= t.Keys
        invariant kept == map id | id in t && (id in left || TimeValid(c, t[id], now)) :: t[id]
        decreases left
      {
        var id :| id in left;
        left := left - {id};
        if !TimeValid(c, t[id], now) {
          kept := kept - {id};
        }
      }
    }
  }

  lemma SettingsAreStable(cfg: Config)
    ensures Settings(Settings(cfg)) == Settings(cfg)
  {
    TrimSpaceTrims(cfg.path);
    TrimmedIsFixed(TrimSpace(cfg.path));
  }

  // ---------------------------------------------------------------- runs within one process

  function After(s: State, ops: seq<Op>): State
    decreases |ops|
  {
    if ops == [] then s
    else Step(After(s, ops[..|ops| - 1]), ops[|ops| - 1]).0
  }

  // What the k-th operation of the run answered.
  function Answer(s: State, ops: seq<Op>, k: nat): Outcome
    requires k < |ops|
  {
    Step(After(s, ops[..k]), ops[k]).1
  }

  predicate AboutSession(op: Op, id: string) {
    match op
    case Create(x, _, _) => x == id
    case UpdateConfig(_, _) => false
    case _ => TrimSpace(op.id) == id
  }

  // The random IDs never repeat.
  predicate FreshIds(ops: seq<Op>) {
    forall i, j :: 0 <= i < j < |ops| && ops[j].Create? ==> !AboutSession(ops[i], ops[j].id)
  }

  // A refusal ends the session: it was dropped, or it was revoked.
  predicate Ends(s: State, ops: seq<Op>, i: nat, id: string)
    requires i < |ops|
  {
    AboutSession(ops[i], id) && (Answer(s, ops, i) == Dropped || ops[i].Revoke?)
  }

  lemma NotCreatedAgain(ops: seq<Op>, i: nat, j: nat, id: string)
    requires 0 < i < j <= |ops| && FreshIds(ops) && AboutSession(ops[i - 1], id)
    ensures ops[j - 1].Create? ==> ops[j - 1].id != id
  {
  }

  lemma StepCreatesOnly(s: State, op: Op, id: string)
    requires id !in s.table && (op.Create? ==> op.id != id)
    ensures id !in Step(s, op).0.table
  {
    hide TrimSpace;
  }

  lemma {:induction false} GoneStaysGone(s: State, ops: seq<Op>, i: nat, j: nat, id: string)
    requires i <= j <= |ops| && FreshIds(ops)
    requires i > 0 && AboutSession(ops[i - 1], id) && !ops[i - 1].Create?
    requires id !in After(s, ops[..i]).table
    ensures id !in After(s, ops[..j]).table
    decreases j
  {
    hide *;
    if i < j {
      GoneStaysGone(s, ops, i, j - 1, id);
      assert ops[..j] == ops[..j - 1] + [ops[j - 1]];
      NotCreatedAgain(ops, i, j, id);
      AfterOneMore(s, ops[..j - 1], ops[j - 1]);
      StepCreatesOnly(After(s, ops[..j - 1]), ops[j - 1], id);
    }
  }

  // Once refused or revoked, an ID is never accepted again, whatever happens in between.
  lemma NeverAcceptedAgain(s: State, ops: seq<Op>, i: nat, j: nat, id: string)
    requires i < j < |ops| && FreshIds(ops)
    requires Ends(s, ops, i, id)
    requires AboutSession(ops[j], id)
    ensures Answer(s, ops, j) == Unknown
  {
    if id != "" {
      assert ops[..i + 1][..i] == ops[..i];
      assert id !in After(s, ops[..i + 1]).table;
      GoneStaysGone(s, ops, i + 1, j, id);
    }
  }

  // When the ID was last created, validated or elevated with success, and when and with which token it
  // was created. What the process loaded at its start counts for the time before.
  function LastTouch(s: State, ops: seq<Op>, id: string): Option<int>
    decreases |ops|
  {
    if ops == [] then if id in s.table then Some(s.table[id].lastSeen) else None
    else
      var n := |ops| - 1;
      if AboutSession(ops[n], id) && (ops[n].Create? || ops[n].Validate? || ops[n].Elevate?) && Answer(s, ops, n) == Granted
      then Some(ops[n].now)
      else LastTouch(s, ops[..n], id)
  }

  datatype Origin = Origin(createdAt: int, hash: seq<Byte>)

  function Creation(s: State, ops: seq<Op>, id: string): Option<Origin>
    decreases |ops|
  {
    if ops == [] then if id in s.table then Some(Origin(s.table[id].createdAt, s.table[id].tokenHash)) else None
    else
      var last := ops[|ops| - 1];
      if last.Create? && last.id == id then Some(Origin(last.now, last.hash)) else Creation(s, ops[..|ops| - 1], id)
  }

  lemma {:induction false} TableRemembers(s: State, ops: seq<Op>, id: string)
    requires id in After(s, ops).table
    ensures var x := After(s, ops).table[id];
            && LastTouch(s, ops, id) == Some(x.lastSeen)
            && Creation(s, ops, id) == Some(Origin(x.createdAt, x.tokenHash))
    decreases |ops|
  {
    if ops != [] {
      var n := |ops| - 1;
      assert ops[..n][..n] == ops[..n];
      if !(ops[n].Create? && ops[n].id == id) {
        assert id in After(s, ops[..n]).table;
        TableRemembers(s, ops[..n], id);
      }
    }
  }

  // Every acceptance comes with the token the session was created with, within the idle time of the
  // last touch and within the session's lifetime, under the settings of the moment.
  lemma AcceptanceIsInTime(start: State, ops: seq<Op>, k: nat)
    requires k < |ops| && (ops[k].Validate? || ops[k].Elevate? || ops[k].IsElevated?)
    requires Answer(start, ops, k) == Granted
    ensures var now := After(start, ops[..k]).settings;
            var id := TrimSpace(ops[k].id);
            && LastTouch(start, ops[..k], id).Some? && Creation(start, ops[..k], id).Some?
            && ops[k].now - LastTouch(start, ops[..k], id).value <= now.idle
            && ops[k].now - Creation(start, ops[..k], id).value.createdAt <= now.lifetime
            && ops[k].hash == Creation(start, ops[..k], id).value.hash
  {
    TableRemembers(start, ops[..k], TrimSpace(ops[k].id));
  }

  // ---------------------------------------------------------------- every answer, from the history

  lemma SettingsMeaning(cfg: Config)
    ensures var c := Settings(cfg);
            && c.idle == (if cfg.idle > 0 then cfg.idle else 7 * 24 * HOUR)
            && c.lifetime == (if cfg.lifetime > 0 then cfg.lifetime else 7 * 24 * HOUR)
            && c.elevation == (if cfg.elevation > 0 then cfg.elevation else HOUR / 4)
            && c.path == TrimSpace(cfg.path) && (c.persist <==> cfg.persist && exists i :: 0 <= i < |cfg.path| && !IsSpace(cfg.path[i]))
            && c.keepElevation == cfg.keepElevation
  {
    var i, j := TrimSpaceTakesSpace(cfg.path);
    if TrimSpace(cfg.path) != "" {
      TrimSpaceTrims(cfg.path);
      assert !IsSpace(cfg.path[i]) by {
        assert TrimSpace(cfg.path)[0] == cfg.path[i];
      }
    }
  }

  // The settings in force after a run.
  function InForce(settings: Config, ops: seq<Op>): Config
    decreases |ops|
  {
    if ops == [] then settings
    else if ops[|ops| - 1].UpdateConfig? then Settings(ops[|ops| - 1].cfg)
    else InForce(settings, ops[..|ops| - 1])
  }

  // Until when the session is elevated: the elevation window of the moment after the last granted Elevate,
  // or as it was loaded.
  function ElevatedUntil(s: State, ops: seq<Op>, id: string): Option<int>
    decreases |ops|
  {
    if ops == [] then if id in s.table && s.table[id].elevatedUntil != 0 then Some(s.table[id].elevatedUntil) else None
    else
      var n := |ops| - 1;
      if ops[n].Create? && ops[n].id == id then None
      else if ops[n].Elevate? && AboutSession(ops[n], id) && Answer(s, ops, n) == Granted
      then Some(ops[n].now + InForce(s.settings, ops[..n]).elevation)
      else ElevatedUntil(s, ops[..n], id)
  }

  // Neither idle nor alive for too long under some settings.
  predicate InTime(c: Config, s: State, ops: seq<Op>, id: string, now: int) {
    var touched, created := LastTouch(s, ops, id), Creation(s, ops, id);
    touched.Some? && created.Some? && now - touched.value <= c.idle && now - created.value.createdAt <= c.lifetime
  }

  // What an operation presents is in time and comes with the token the session was created with.
  predicate Fits(s: State, ops: seq<Op>, id: string, hash: seq<Byte>, now: int) {
    InTime(InForce(s.settings, ops), s, ops, id, now) && Creation(s, ops, id).value.hash == hash
  }

  // A session lives from its creation, or loading, until it is revoked, presented unfit, or found out of
  // time when the settings change.
  predicate Alive(s: State, ops: seq<Op>, id: string)
    decreases |ops|
  {
    if ops == [] then id in s.table
    else
      var front, op := ops[..|ops| - 1], ops[|ops| - 1];
      match op
      case Create(x, _, _) => x == id || Alive(s, front, id)
      case Revoke(x) => Alive(s, front, id) && TrimSpace(x) != id
      case UpdateConfig(cfg, now) => Alive(s, front, id) && InTime(Settings(cfg), s, front, id, now)
      case _ => Alive(s, front, id) && (TrimSpace(op.id) == id ==> Fits(s, front, id, op.hash, op.now))
  }

  // What the history says of a session in the table.
  ghost predicate Remembered(s: State, ops: seq<Op>, id: string, x: Session) {
    && LastTouch(s, ops, id) == Some(x.lastSeen)
    && Creation(s, ops, id) == Some(Origin(x.createdAt, x.tokenHash))
    && x.elevatedUntil == (if ElevatedUntil(s, ops, id).Some? then ElevatedUntil(s, ops, id).value else 0)
  }

  // The table holds exactly the living sessions, as the history says.
  ghost predicate Tells(s: State, ops: seq<Op>, id: string, now: State) {
    && now.settings == InForce(s.settings, ops)
    && (id in now.table <==> Alive(s, ops, id))
    && (id in now.table ==> Remembered(s, ops, id, now.table[id]))
  }

  // What one more operation does to the history.
  lemma MemoryOneMore(s: State, ops: seq<Op>, op: Op, id: string)
    ensures var more, answer := ops + [op], Step(After(s, ops), op).1;
            var created := op.Create? && op.id == id;
            && InForce(s.settings, more) == (if op.UpdateConfig? then Settings(op.cfg) else InForce(s.settings, ops))
            && Creation(s, more, id) == (if created then Some(Origin(op.now, op.hash)) else Creation(s, ops, id))
            && LastTouch(s, more, id)
               == (if AboutSession(op, id) && (op.Create? || op.Validate? || op.Elevate?) && answer == Granted then Some(op.now)
                   else LastTouch(s, ops, id))
            && ElevatedUntil(s, more, id)
               == (if created then None
                   else if op.Elevate? && AboutSession(op, id) && answer == Granted then Some(op.now + InForce(s.settings, ops).elevation)
                   else ElevatedUntil(s, ops, id))
  {
    hide TrimSpace, Settings, After, Step, Answer, AboutSession;
    var more := ops + [op];
    assert more[..|more| - 1] == ops && more[|more| - 1] == op;
    AfterOneMore(s, ops, op);
  }

  lemma AliveOneMore(s: State, ops: seq<Op>, op: Op, id: string)
    ensures Alive(s, ops + [op], id)
         == if op.Create? then op.id == id || Alive(s, ops, id)
            else if op.Revoke? then Alive(s, ops, id) && TrimSpace(op.id) != id
            else if op.UpdateConfig? then Alive(s, ops, id) && InTime(Settings(op.cfg), s, ops, id, op.now)
            else Alive(s, ops, id) && (TrimSpace(op.id) == id ==> Fits(s, ops, id, op.hash, op.now))
  {
    var more := ops + [op];
    assert more[..|more| - 1] == ops && more[|more| - 1] == op;
    hide TrimSpace, Settings, Fits, InTime;
  }

  // Presenting a session decides as the history does.
  lemma PresentDecides(s: State, ops: seq<Op>, id: string, now: State, hash: seq<Byte>, at: int)
    requires Tells(s, ops, id, now)
    ensures id in now.table ==>
              && (SessionValid(now.settings, now.table[id], at, hash) <==> Fits(s, ops, id, hash, at))
              && forall c :: TimeValid(c, now.table[id], at) <==> InTime(c, s, ops, id, at)
  {
    hide LastTouch, Creation, ElevatedUntil, Alive, InForce;
  }

  lemma ChangeTells(s: State, ops: seq<Op>, op: Op, id: string, now: State)
    requires id != "" && Tells(s, ops, id, now) && now == After(s, ops)
    requires op.Create? || op.Revoke? || op.UpdateConfig?
    ensures Tells(s, ops + [op], id, Step(now, op).0)
  {
    MemoryOneMore(s, ops, op, id);
    AliveOneMore(s, ops, op, id);
    if op.UpdateConfig? {
      PresentDecides(s, ops, id, now, [], op.now);
    }
    hide TrimSpace, Settings, After, LastTouch, Creation, ElevatedUntil, Alive, InForce, InTime, TimeValid;
  }

  lemma PresentTells(s: State, ops: seq<Op>, op: Op, id: string, now: State)
    requires id != "" && Tells(s, ops, id, now) && now == After(s, ops)
    requires op.Validate? || op.Elevate? || op.IsElevated?
    ensures Tells(s, ops + [op], id, Step(now, op).0)
  {
    MemoryOneMore(s, ops, op, id);
    AliveOneMore(s, ops, op, id);
    PresentDecides(s, ops, id, now, op.hash, op.now);
    hide TrimSpace, Settings, After, LastTouch, Creation, ElevatedUntil, Alive, InForce, Fits, SessionValid;
  }

  lemma HistoryOneMore(s: State, ops: seq<Op>, op: Op, id: string)
    requires id != "" && Tells(s, ops, id, After(s, ops))
    ensures Tells(s, ops + [op], id, Step(After(s, ops), op).0)
  {
    hide *;
    if op.Create? || op.Revoke? || op.UpdateConfig? {
      ChangeTells(s, ops, op, id, After(s, ops));
    } else {
      PresentTells(s, ops, op, id, After(s, ops));
    }
  }

  lemma {:induction false} TableTells(s: State, ops: seq<Op>, id: string)
    requires id != ""
    ensures Tells(s, ops, id, After(s, ops))
    decreases |ops|
  {
    hide Step;
    if ops != [] {
      var front, op := ops[..|ops| - 1], ops[|ops| - 1];
      TableTells(s, front, id);
      HistoryOneMore(s, front, op, id);
      assert ops == front + [op];
    }
  }

  // Every answer to a session ID, decided by the history alone: unknown if the session does not live,
  // dropped if what is presented does not fit, granted otherwise; elevated only up to the bound of the
  // last granted Elevate.
  lemma AnswersAreExact(s: State, ops: seq<Op>, k: nat)
    requires k < |ops| && (ops[k].Validate? || ops[k].Elevate? || ops[k].IsElevated?)
    ensures var past, op, id := ops[..k], ops[k], TrimSpace(ops[k].id);
            var lives := id != "" && Alive(s, past, id);
            var fits := lives && Fits(s, past, id, op.hash, op.now);
            var elevated := ElevatedUntil(s, past, id).Some? && ElevatedUntil(s, past, id).value != 0 && op.now <= ElevatedUntil(s, past, id).value;
            && (Answer(s, ops, k) == Unknown <==> !lives)
            && (Answer(s, ops, k) == Dropped <==> lives && !fits)
            && (Answer(s, ops, k) == Granted <==> fits && (op.IsElevated? ==> elevated))
            && (Answer(s, ops, k) == NotElevated <==> fits && op.IsElevated? && !elevated)
  {
    var id := TrimSpace(ops[k].id);
    if id != "" {
      TableTells(s, ops[..k], id);
    }
    hide TrimSpace, After, Alive, LastTouch, Creation, ElevatedUntil, InForce;
  }

  // ---------------------------------------------------------------- refusals and restarts

  // The table as the file has it after a run that started with the file in step.
  function Filed(s: State, ops: seq<Op>): Table
    decreases |ops|
  {
    if ops == [] then s.table
    else FiledAfter(After(s, ops[..|ops| - 1]), ops[|ops| - 1], Filed(s, ops[..|ops| - 1]))
  }

  predicate GoodCreation(op: Op)
    requires op.Create?
  {
    op.id != "" && Trimmed(op.id) && |op.hash| == HASH_SIZE
  }

  predicate GoodOps(ops: seq<Op>) {
    forall i :: 0 <= i < |ops| && ops[i].Create? ==> GoodCreation(ops[i])
  }

  // No operation from the k-th on writes the file.
  predicate UnwrittenFrom(s: State, ops: seq<Op>, k: nat)
    requires k <= |ops|
  {
    forall j :: k <= j < |ops| ==> !Writes(After(s, ops[..j]), ops[j])
  }

  // IsElevated dropped the session, and the file has not been written since.
  ghost predicate DroppedUnwritten(s: State, ops: seq<Op>, id: string) {
    exists k :: DropsUnwritten(s, ops, id, k)
  }

  predicate DropsUnwritten(s: State, ops: seq<Op>, id: string, k: int) {
    && 0 <= k < |ops| && ops[k].IsElevated? && AboutSession(ops[k], id) && Answer(s, ops, k) == Dropped
    && UnwrittenFrom(s, ops, k)
  }

  lemma AfterOneMore(s: State, ops: seq<Op>, op: Op)
    ensures After(s, ops + [op]) == Step(After(s, ops), op).0
    ensures Filed(s, ops + [op]) == FiledAfter(After(s, ops), op, Filed(s, ops))
    ensures forall k :: 0 <= k < |ops| ==> (ops + [op])[..k] == ops[..k] && Answer(s, ops + [op], k) == Answer(s, ops, k)
    ensures Answer(s, ops + [op], |ops|) == Step(After(s, ops), op).1
  {
    assert (ops + [op])[..|ops|] == ops;
    assert forall k :: 0 <= k < |ops| ==> (ops + [op])[..k] == ops[..k];
  }

  // An operation that does not write changes nothing but dropping the session of a refused IsElevated.
  lemma UnwrittenStep(s: State, op: Op)
    requires !Writes(s, op)
    ensures Step(s, op).0.settings == s.settings
    ensures Step(s, op).0.table == if op.IsElevated? && Step(s, op).1 == Dropped then s.table - {TrimSpace(op.id)} else s.table
    ensures op.IsElevated? && Step(s, op).1 == Dropped ==> TrimSpace(op.id) in s.table
  {
  }

  lemma UnwrittenOneMore(s: State, ops: seq<Op>, op: Op, k: nat)
    requires k <= |ops|
    ensures UnwrittenFrom(s, ops + [op], k) <==> UnwrittenFrom(s, ops, k) && !Writes(After(s, ops), op)
  {
    hide Writes, After;
    var more, n := ops + [op], |ops|;
    assert more[..n] == ops && more[n] == op;
    assert forall j :: 0 <= j < n ==> more[..j] == ops[..j] && more[j] == ops[j];
  }

  lemma DropOneMore(s: State, ops: seq<Op>, op: Op, id: string, k: int)
    ensures DropsUnwritten(s, ops + [op], id, k)
       <==> && !Writes(After(s, ops), op)
            && if k == |ops| then op.IsElevated? && AboutSession(op, id) && Step(After(s, ops), op).1 == Dropped
               else DropsUnwritten(s, ops, id, k)
  {
    hide Writes, After, Step, AboutSession, UnwrittenFrom, Answer;
    AfterOneMore(s, ops, op);
    if 0 <= k <= |ops| {
      UnwrittenOneMore(s, ops, op, k);
      assert (ops + [op])[|ops|] == op && (k < |ops| ==> (ops + [op])[k] == ops[k]);
      NothingUnwritten(s, ops);
    }
  }

  lemma NothingUnwritten(s: State, ops: seq<Op>)
    ensures UnwrittenFrom(s, ops, |ops|)
  {
  }

  lemma DropsOneMore(s: State, ops: seq<Op>, op: Op, id: string)
    ensures DroppedUnwritten(s, ops + [op], id)
      <==> && !Writes(After(s, ops), op)
           && (|| DroppedUnwritten(s, ops, id)
               || (op.IsElevated? && AboutSession(op, id) && Step(After(s, ops), op).1 == Dropped))
  {
    hide Writes, After, Step, AboutSession;
    if k :| DropsUnwritten(s, ops + [op], id, k) {
      DropOneMore(s, ops, op, id, k);
      assert k != |ops| ==> DropsUnwritten(s, ops, id, k);
    }
    if k :| DropsUnwritten(s, ops, id, k) {
      DropOneMore(s, ops, op, id, k);
      assert k != |ops|;
    }
    DropOneMore(s, ops, op, id, |ops|);
  }

  // The file agrees with the table on every session the table has; beyond those it has exactly the ones
  // that IsElevated dropped since it was last written.
  lemma {:induction false} FileLagsBehind(s: State, ops: seq<Op>, id: string)
    ensures id in After(s, ops).table ==> id in Filed(s, ops) && Filed(s, ops)[id] == After(s, ops).table[id]
    ensures id in Filed(s, ops) && id !in After(s, ops).table <==> DroppedUnwritten(s, ops, id)
    decreases |ops|
  {
    if ops != [] {
      var front, op := ops[..|ops| - 1], ops[|ops| - 1];
      assert ops == front + [op];
      FileLagsBehind(s, front, id);
      AfterOneMore(s, front, op);
      DropsOneMore(s, front, op, id);
      if !Writes(After(s, front), op) {
        UnwrittenStep(After(s, front), op);
      }
    }
  }

  lemma StepKeepsTableGood(s: State, op: Op)
    requires GoodTable(s.table) && (op.Create? ==> GoodCreation(op))
    ensures GoodTable(Step(s, op).0.table)
  {
    hide Trimmed, TrimSpace;
  }

  lemma {:induction false} RunKeepsTablesGood(s: State, ops: seq<Op>)
    requires GoodTable(s.table) && GoodOps(ops)
    ensures GoodTable(After(s, ops).table) && GoodTable(Filed(s, ops))
    decreases |ops|
  {
    if ops != [] {
      var front, op := ops[..|ops| - 1], ops[|ops| - 1];
      RunKeepsTablesGood(s, front);
      assert op.Create? ==> GoodCreation(op);
      StepKeepsTableGood(After(s, front), op);
      assert ops == front + [op];
      AfterOneMore(s, front, op);
    }
    hide *;
  }

  // A restart with unchanged settings, after any run, gives exactly the sessions of the table and those
  // that IsElevated dropped since the file was last written, as far as they are still valid in time.
  lemma RestartGives(s: State, ops: seq<Op>, records: seq<Record>, now: int, id: string)
    requires GoodTable(s.table) && GoodOps(ops) && Lists(records, After(s, ops).settings, Filed(s, ops))
    ensures DroppedUnwritten(s, ops, id) ==> id in Filed(s, ops)
    ensures var c := After(s, ops).settings;
            id in Load(c, records, now)
            <==> || (id in After(s, ops).table && TimeValid(c, After(s, ops).table[id], now))
                 || (DroppedUnwritten(s, ops, id) && TimeValid(c, Filed(s, ops)[id], now))
  {
    RunKeepsTablesGood(s, ops);
    FileLagsBehind(s, ops, id);
    SaveThenLoad(After(s, ops).settings, records, Filed(s, ops), now);
  }

  lemma {:induction false} UnwrittenKeepsFile(s: State, ops: seq<Op>, k: nat)
    requires k <= |ops| && UnwrittenFrom(s, ops, k)
    ensures Filed(s, ops) == Filed(s, ops[..k])
    decreases |ops|
  {
    if k == |ops| {
      assert ops[..k] == ops;
    } else {
      var front := ops[..|ops| - 1];
      assert forall j :: 0 <= j <= |front| ==> front[..j] == ops[..j];
      assert !Writes(After(s, ops[..|front|]), ops[|front|]);
      forall j | k <= j < |front| ensures !Writes(After(s, front[..j]), front[j]) {
        assert !Writes(After(s, ops[..j]), ops[j]);
      }
      UnwrittenKeepsFile(s, front, k);
    }
  }

  lemma EndedIsGone(s: State, ops: seq<Op>, i: nat, id: string)
    requires GoodTable(s.table) && GoodOps(ops) && FreshIds(ops) && i < |ops| && Ends(s, ops, i, id)
    ensures id !in After(s, ops).table
  {
    assert ops[..i] + [ops[i]] == ops[..i + 1] && ops[..|ops|] == ops;
    AfterOneMore(s, ops[..i], ops[i]);
    GoodOpsSoFar(ops, i);
    RunKeepsTablesGood(s, ops[..i]);
    EndingStep(After(s, ops[..i]), ops[i], id);
    assert !ops[i].Create?;
    hide *;
    GoneStaysGone(s, ops, i + 1, |ops|, id);
  }

  lemma GoodOpsSoFar(ops: seq<Op>, i: nat)
    requires GoodOps(ops) && i <= |ops|
    ensures GoodOps(ops[..i])
  {
  }

  lemma EndingStep(s: State, op: Op, id: string)
    requires GoodTable(s.table) && AboutSession(op, id) && (Step(s, op).1 == Dropped || op.Revoke?)
    ensures id !in Step(s, op).0.table
  {
    hide TrimSpace, Trimmed;
  }

  // If the refusal is the drop that is not in the file, the file has the session as it was then.
  lemma DroppedThen(s: State, ops: seq<Op>, i: nat, id: string)
    requires FreshIds(ops) && i < |ops| && Ends(s, ops, i, id)
    ensures DroppedUnwritten(s, ops, id) <==> ops[i].IsElevated? && UnwrittenFrom(s, ops, i)
    ensures DroppedUnwritten(s, ops, id) ==> id in Filed(s, ops) && Filed(s, ops)[id] == Find(After(s, ops[..i]), id)
  {
    hide Step, After, Filed;
    if ops[i].IsElevated? && UnwrittenFrom(s, ops, i) {
      assert DropsUnwritten(s, ops, id, i);
    }
    if DroppedUnwritten(s, ops, id) {
      var k :| DropsUnwritten(s, ops, id, k);
      DropIsTheRefusal(s, ops, i, k, id);
      UnwrittenKeepsFile(s, ops, i);
      FileLagsBehind(s, ops[..i], id);
      DroppedWasThere(After(s, ops[..i]), ops[i], id);
    }
  }

  lemma DroppedWasThere(s: State, op: Op, id: string)
    requires op.IsElevated? && AboutSession(op, id) && Step(s, op).1 == Dropped
    ensures id in s.table
  {
    hide TrimSpace;
  }

  // A session that was refused or revoked comes back with a restart exactly if IsElevated refused it, no
  // operation has written the file since, and it is still valid in time.
  lemma RefusalAndRestart(s: State, ops: seq<Op>, i: nat, id: string, records: seq<Record>, now: int)
    requires GoodTable(s.table) && GoodOps(ops) && FreshIds(ops) && i < |ops| && Ends(s, ops, i, id)
    requires Lists(records, After(s, ops).settings, Filed(s, ops))
    ensures id in Load(After(s, ops).settings, records, now)
      <==> ops[i].IsElevated? && UnwrittenFrom(s, ops, i) && TimeValid(After(s, ops).settings, Find(After(s, ops[..i]), id), now)
  {
    hide *;
    RestartGives(s, ops, records, now, id);
    EndedIsGone(s, ops, i, id);
    DroppedThen(s, ops, i, id);
  }

  // An ID is dropped once only.
  lemma DropIsTheRefusal(s: State, ops: seq<Op>, i: nat, k: nat, id: string)
    requires FreshIds(ops) && i < |ops| && Ends(s, ops, i, id) && DropsUnwritten(s, ops, id, k)
    ensures k == i
  {
    if i < k {
      NeverAcceptedAgain(s, ops, i, k, id);
    } else if k < i {
      NeverAcceptedAgain(s, ops, k, i, id);
    }
  }
}
