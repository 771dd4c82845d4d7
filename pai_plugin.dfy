/** The `/pai` command of the chat plugin (pai.plugin.js): parsing the
    message, the per-(uid, gid) task records in the `ririra_pai` table, the
    updates the background search makes to its record, and the batch loop of
    `slowFindInPi` over an abstract digit source. */
module PaiPlugin {
  import opened Text

  // ---------------------------------------------------------------------
  // Command recognition and argument extraction (pai.plugin.js:84-94)
  // ---------------------------------------------------------------------

  /** `content.replace(/^.*?\/pai/, '')`: removes everything up to and
      including the first "/pai" that is reachable from the start without
      crossing a line terminator; leaves `s` alone when there is none. */
  function StripThroughPai(s: string): (r: string)
    ensures |r| <= |s| && r == s[|s| - |r|..]
    ensures StartsWith(s, "/pai") ==> r == s[4..]
  {
    match FirstPaiFrom(s, 0)
    case Some(k) => s[k + 4..]
    case None => s
  }

  /** `.` matches every character of `s[k..j]`: none of them is a line
      terminator. */
  predicate DotsFrom(s: string, k: nat, j: nat) {
    k <= j <= |s| && forall i :: k <= i < j ==> !IsLineTerminator(s[i])
  }

  /** Where the "/pai" of the shortest match of `.*?\/pai` starts, the match
      itself starting at `k`: the first "/pai" at or after `k` with no line
      terminator before it, or None when every "/pai" after `k` has one. */
  function FirstPaiFrom(s: string, k: nat): (r: Option<nat>)
    requires k <= |s|
    ensures r.Some? ==> k <= r.value && r.value + 4 <= |s| && s[r.value..r.value + 4] == "/pai"
    ensures r.Some? ==> DotsFrom(s, k, r.value) && forall j :: k <= j < r.value ==> !OccursAt(s, "/pai", j)
    ensures r.None? ==> forall j: nat :: DotsFrom(s, k, j) ==> !OccursAt(s, "/pai", j)
    ensures k + 4 <= |s| && s[k..k + 4] == "/pai" ==> r == Some(k)
    decreases |s| - k
  {
    if k + 4 > |s| then None
    else if s[k..k + 4] == "/pai" then Some(k)
    else if IsLineTerminator(s[k]) then None
    else FirstPaiFrom(s, k + 1)
  }

  /** What a group message asks for: nothing (not a `/pai` command), a status
      query, or a new search for `target`. */
  datatype Command = Ignore | Query | Start(target: string)

  lemma TrimEmpty(s: string)
    ensures Trim(s) == [] <==> AllSpace(s)
  {
    var t := TrimStart(s);
    var k := |s| - |t|;
    if t != [] {
      assert s[k] == t[0];
    }
    if TrimEnd(t) == [] {
      assert t[0..] == t;
      assert k == |s|;
      forall i | 0 <= i < |s| ensures IsSpace(s[i]) {
        assert s[..k][i] == s[i];
      }
    }
  }

  /** The handler's reading of a message: the trimmed content must start with
      "/pai"; the argument is the first white-space separated field of the
      trimmed remainder. An empty argument is a query; there is no check that
      the argument consists of digits. */
  function ParseCommand(raw: string): (c: Command)
    ensures c.Ignore? <==> !StartsWith(Trim(raw), "/pai")
    ensures c.Query? <==> StartsWith(Trim(raw), "/pai") && AllSpace(Trim(raw)[4..])
    ensures c.Start? ==>
      var rest := Trim(Trim(raw)[4..]);
      && c.target != [] && NoSpace(c.target)
      && StartsWith(rest, c.target)
      && (|c.target| == |rest| || IsSpace(rest[|c.target|]))
  {
    var content := Trim(raw);
    if !StartsWith(content, "/pai") then Ignore
    else
      var rest := Trim(StripThroughPai(content));
      var input := FirstField(rest);
      TrimEmpty(content[4..]);
      assert input == [] <==> rest == [];
      if input == [] then Query else Start(input)
  }

  // ---------------------------------------------------------------------
  // Task records (entity/ririra.pai.js) and the table that holds them
  // ---------------------------------------------------------------------

  /** A row of `ririra_pai`. `findSecord` keeps the column's spelling
      (`find_secord`, the elapsed seconds). */
  datatype PaiRecord = PaiRecord(
    id: nat, gid: string, uid: string, pai: string,
    status: int, findSecord: int, findWhere: int, createdAt: int)

  const Running: int := 1
  const Finished: int := 0
  const Superseded: int := -1

  /** Matches `{ uid, gid, status: In([0, 1]) }`. */
  predicate Active(r: PaiRecord, uid: string, gid: string) {
    r.uid == uid && r.gid == gid && (r.status == Finished || r.status == Running)
  }

  type Table = map<nat, PaiRecord>

  /** Every row is stored under its own id, and ids below `nextId` are the
      ones handed out so far. */
  predicate TableValid(rows: Table, nextId: nat) {
    forall k :: k in rows ==> k < nextId && rows[k].id == k
  }

  /** The lowest id in [from, to) whose row matches `{ uid, gid, status:
      In([0, 1]) }`. */
  function FirstActive(rows: Table, uid: string, gid: string, from: nat, to: nat): (r: Option<nat>)
    ensures r.Some? ==>
      && from <= r.value < to && r.value in rows && Active(rows[r.value], uid, gid)
      && forall i :: from <= i < r.value && i in rows ==> !Active(rows[i], uid, gid)
    ensures r.None? ==> (forall i :: from <= i < to && i in rows ==> !Active(rows[i], uid, gid))
    decreases if from <= to then to - from else 0
  {
    if from >= to then None
    else if from in rows && Active(rows[from], uid, gid) then Some(from)
    else FirstActive(rows, uid, gid, from + 1, to)
  }

  /** `findOne({ where: { uid, gid, status: In([0, 1]) } })`. The query has no
      ORDER BY; the row with the lowest id is taken. */
  function FindOne(rows: Table, nextId: nat, uid: string, gid: string): (r: Option<PaiRecord>)
    requires TableValid(rows, nextId)
    ensures r.Some? <==> exists k :: k in rows && Active(rows[k], uid, gid)
    ensures r.Some? ==> r.value.id in rows && rows[r.value.id] == r.value && Active(r.value, uid, gid)
    ensures r.Some? ==> forall k :: k in rows && Active(rows[k], uid, gid) ==> r.value.id <= k
  {
    match FirstActive(rows, uid, gid, 0, nextId)
    case Some(k) => Some(rows[k])
    case None => None
  }

  /** At most one row of (uid, gid) is running or finished. */
  ghost predicate AtMostOneActive(rows: Table, uid: string, gid: string) {
    forall i, j :: i in rows && j in rows && Active(rows[i], uid, gid) && Active(rows[j], uid, gid) ==> i == j
  }

  /** The record `create` builds for a new search. */
  function NewTask(id: nat, uid: string, gid: string, target: string, now: int): PaiRecord {
    PaiRecord(id, gid, uid, target, Running, 0, 0, now)
  }

  /** The table after a new search for `target` by (uid, gid): the row
      `findOne` finds, if any, saved with status -1, then the new row saved
      under the next id. */
  function StartTask(rows: Table, nextId: nat, uid: string, gid: string, target: string, now: int): Table
    requires TableValid(rows, nextId)
  {
    var superseded :=
      match FindOne(rows, nextId, uid, gid)
      case Some(prev) => rows[prev.id := prev.(status := Superseded)]
      case None => rows;
    superseded[nextId := NewTask(nextId, uid, gid, target, now)]
  }

  /** What starting a search does to the table: the new row has the caller's
      uid and gid, `pai` = target, both counters 0 and status 1; the row
      `findOne` found is superseded with every other field kept; every other
      row is untouched. */
  lemma StartTaskEffect(rows: Table, nextId: nat, uid: string, gid: string, target: string, now: int)
    requires TableValid(rows, nextId)
    ensures var rows' := StartTask(rows, nextId, uid, gid, target, now);
      && TableValid(rows', nextId + 1)
      && rows'.Keys == rows.Keys + {nextId}
      && (var n := rows'[nextId];
          n.uid == uid && n.gid == gid && n.pai == target && n.findWhere == 0 && n.findSecord == 0
          && n.status == Running && n.createdAt == now)
      && forall k :: k in rows ==>
           && rows'[k].(status := rows[k].status) == rows[k]
           && rows'[k].status == (if FindOne(rows, nextId, uid, gid) == Some(rows[k]) then Superseded else rows[k].status)
  {
    var rows' := StartTask(rows, nextId, uid, gid, target, now);
    forall k | k in rows
      ensures rows'[k].status == (if FindOne(rows, nextId, uid, gid) == Some(rows[k]) then Superseded else rows[k].status)
    {
      match FindOne(rows, nextId, uid, gid)
      case Some(prev) =>
        assert rows[k] == prev <==> k == prev.id;
      case None =>
    }
  }

  /** Starting a search leaves exactly one running-or-finished row for the
      caller, the new one, provided there was at most one before; rows of
      other callers keep their state. */
  lemma StartLeavesOneActive(rows: Table, nextId: nat, uid: string, gid: string, target: string, now: int)
    requires TableValid(rows, nextId)
    requires AtMostOneActive(rows, uid, gid)
    ensures var rows' := StartTask(rows, nextId, uid, gid, target, now);
      && (forall k :: k in rows' ==> (Active(rows'[k], uid, gid) <==> k == nextId))
      && (forall k, u, g :: k in rows && (u != uid || g != gid) ==> (Active(rows'[k], u, g) <==> Active(rows[k], u, g)))
  {
    var rows' := StartTask(rows, nextId, uid, gid, target, now);
    StartTaskEffect(rows, nextId, uid, gid, target, now);
    forall k | k in rows' ensures Active(rows'[k], uid, gid) <==> k == nextId {
      if k != nextId && Active(rows[k], uid, gid) {
        var found := FindOne(rows, nextId, uid, gid);
        assert found.Some? && found.value.id == k;
      }
    }
  }

  /** A status query right after a start reports the new search. */
  lemma QueryAfterStart(rows: Table, nextId: nat, uid: string, gid: string, target: string, now: int)
    requires TableValid(rows, nextId)
    requires AtMostOneActive(rows, uid, gid)
    ensures var rows' := StartTask(rows, nextId, uid, gid, target, now);
      TableValid(rows', nextId + 1)
      && FindOne(rows', nextId + 1, uid, gid) == Some(NewTask(nextId, uid, gid, target, now))
  {
    StartTaskEffect(rows, nextId, uid, gid, target, now);
    StartLeavesOneActive(rows, nextId, uid, gid, target, now);
    var rows' := StartTask(rows, nextId, uid, gid, target, now);
    assert Active(rows'[nextId], uid, gid);
  }

  /** With at most one running-or-finished row per caller, the query reply
      shows a task exactly when such a row with a non-empty target exists,
      and then shows that row's target, progress and seconds. */
  lemma QueryReplyShowsTask(rows: Table, nextId: nat, uid: string, gid: string)
    requires TableValid(rows, nextId) && AtMostOneActive(rows, uid, gid)
    ensures var reply := QueryReply(FindOne(rows, nextId, uid, gid));
      && (reply.TaskStatus? <==> exists k :: k in rows && Active(rows[k], uid, gid) && rows[k].pai != [])
      && forall k :: k in rows && Active(rows[k], uid, gid) && rows[k].pai != [] ==>
           reply == TaskStatus(rows[k].pai, rows[k].findWhere, rows[k].findSecord)
  {
    var found := FindOne(rows, nextId, uid, gid);
    forall k | k in rows && Active(rows[k], uid, gid)
      ensures found == Some(rows[k])
    {
      assert found.Some?;
      assert found.value.id == k;
    }
  }

  /** The replies the handler sends through `ctx.reply`. */
  datatype Reply =
    | NoReply
    | TaskStatus(target: string, where: int, seconds: int)
    | NoTask
    | SearchStarted(target: string)
    | Found(target: string, position: int, seconds: int)

  /** The reply to an empty `/pai`: the found record's target, progress and
      seconds when it has a non-empty `pai`, otherwise the "no task" text. */
  function QueryReply(found: Option<PaiRecord>): Reply {
    if found.Some? && found.value.pai != [] then
      TaskStatus(found.value.pai, found.value.findWhere, found.value.findSecord)
    else NoTask
  }

  /** The `ririra_pai` table as the repository sees it. */
  class PaiRepository {
    var rows: Table
    var nextId: nat

    ghost predicate Valid()
      reads this
    {
      TableValid(rows, nextId)
    }

    /** An empty table; the `increment` column hands out 1 first. */
    constructor ()
      ensures Valid() && rows == map[] && nextId == 1
    {
      rows := map[];
      nextId := 1;
    }

    /** `save(record)` for a record that already has an id: the whole row is
        replaced. */
    method Save(record: PaiRecord)
      requires Valid()
      modifies this
      ensures Valid()
      ensures rows == old(rows)[record.id := record]
      ensures nextId == if record.id < old(nextId) then old(nextId) else record.id + 1
    {
      rows := rows[record.id := record];
      if record.id >= nextId {
        nextId := record.id + 1;
      }
    }

    /** `create({...})` followed by `save`: the row gets the next generated
        id. */
    method Insert(uid: string, gid: string, target: string, now: int) returns (record: PaiRecord)
      requires Valid()
      modifies this
      ensures Valid()
      ensures record == NewTask(old(nextId), uid, gid, target, now)
      ensures rows == old(rows)[old(nextId) := record] && nextId == old(nextId) + 1
    {
      record := NewTask(nextId, uid, gid, target, now);
      rows := rows[nextId := record];
      nextId := nextId + 1;
    }
  }

  /** The `GROUP_AT_MESSAGE_CREATE` handler (pai.plugin.js:83-124) up to the
      point where the background search is launched. `now` is the time
      `new Date()` reads; `started` is the record the background search holds
      a copy of. */
  method HandleGroupAtMessage(repo: PaiRepository, raw: string, uid: string, gid: string, now: int)
    returns (reply: Reply, started: Option<PaiRecord>)
    requires repo.Valid()
    modifies repo
    ensures repo.Valid()
    ensures match ParseCommand(raw)
      case Ignore =>
        reply == NoReply && started == None
        && repo.rows == old(repo.rows) && repo.nextId == old(repo.nextId)
      case Query =>
        reply == QueryReply(FindOne(old(repo.rows), old(repo.nextId), uid, gid)) && started == None
        && repo.rows == old(repo.rows) && repo.nextId == old(repo.nextId)
      case Start(target) =>
        reply == SearchStarted(target)
        && started == Some(NewTask(old(repo.nextId), uid, gid, target, now))
        && repo.rows == StartTask(old(repo.rows), old(repo.nextId), uid, gid, target, now)
        && repo.nextId == old(repo.nextId) + 1
  {
    var command := ParseCommand(raw);
    match command
    case Ignore =>
      return NoReply, None;
    case Query =>
      var found := FindOne(repo.rows, repo.nextId, uid, gid);
      return QueryReply(found), None;
    case Start(target) =>
      var found := FindOne(repo.rows, repo.nextId, uid, gid);
      if found.Some? {
        repo.Save(found.value.(status := Superseded));
      }
      var record := repo.Insert(uid, gid, target, now);
      return SearchStarted(target), Some(record);
  }

  // ---------------------------------------------------------------------
  // The background search's record (pai.plugin.js:127-150)
  // ---------------------------------------------------------------------

  /** The copy of the record after `onProgress(progress)` at `seconds`
      elapsed. */
  function ProgressUpdate(record: PaiRecord, progress: int, seconds: int): PaiRecord {
    record.(findWhere := progress, findSecord := seconds)
  }

  /** The state the fire-and-forget search closes over: its own copy of the
      record, updated in place and saved whole on every callback. */
  class SearchTask {
    var record: PaiRecord
    const startTime: int

    constructor (record: PaiRecord, startTime: int)
      ensures this.record == record && this.startTime == startTime
    {
      this.record := record;
      this.startTime := startTime;
    }

    /** `onProgress(progress)`: the copy's `find_where` becomes `progress` and
        `find_secord` the whole seconds since the start; status and target are
        untouched, and the whole copy is saved. */
    method OnProgress(repo: PaiRepository, progress: int, now: int)
      requires repo.Valid()
      modifies this, repo
      ensures record == ProgressUpdate(old(record), progress, (now - startTime) / 1000)
      ensures record.status == old(record).status && record.pai == old(record).pai
      ensures repo.Valid() && repo.rows == old(repo.rows)[record.id := record]
      ensures repo.nextId == if record.id < old(repo.nextId) then old(repo.nextId) else record.id + 1
    {
      record := ProgressUpdate(record, progress, (now - startTime) / 1000);
      repo.Save(record);
    }

    /** The end of the search: `find_where` becomes the found position or 0,
        `find_secord` the total seconds, status 0; the copy is saved and the
        position is announced when there is one. */
    method Complete(repo: PaiRepository, pos: Option<nat>, now: int) returns (reply: Reply)
      requires repo.Valid()
      modifies this, repo
      ensures var found := if pos.Some? then pos.value else 0;
        record == old(record).(findWhere := found, findSecord := (now - startTime) / 1000, status := Finished)
        && reply == (if found != 0 then Found(record.pai, found, (now - startTime) / 1000) else NoReply)
      ensures repo.Valid() && repo.rows == old(repo.rows)[record.id := record]
      ensures repo.nextId == if record.id < old(repo.nextId) then old(repo.nextId) else record.id + 1
    {
      var totalSec := (now - startTime) / 1000;
      var found := if pos.Some? then pos.value else 0;
      record := record.(findWhere := found, findSecord := totalSec, status := Finished);
      repo.Save(record);
      reply := if found != 0 then Found(record.pai, found, totalSec) else NoReply;
    }
  }

  /** A search's saves are unconditional. When a second `/pai <target>`
      supersedes a running search, that search still holds its copy with
      status 1, and its next `onProgress` save brings the superseded row back:
      the caller then has two running-or-finished rows, and a status query
      reports the old search. */
  lemma StaleSaveRevives(rows: Table, nextId: nat, uid: string, gid: string, target: string, now: int,
                         copy: PaiRecord, progress: int, seconds: int)
    requires TableValid(rows, nextId) && AtMostOneActive(rows, uid, gid)
    requires FindOne(rows, nextId, uid, gid) == Some(copy)
    ensures var started := StartTask(rows, nextId, uid, gid, target, now);
      var saved := started[copy.id := ProgressUpdate(copy, progress, seconds)];
      && TableValid(saved, nextId + 1)
      && !AtMostOneActive(saved, uid, gid)
      && FindOne(saved, nextId + 1, uid, gid) == Some(ProgressUpdate(copy, progress, seconds))
  {
    StartTaskEffect(rows, nextId, uid, gid, target, now);
    var started := StartTask(rows, nextId, uid, gid, target, now);
    var stale := ProgressUpdate(copy, progress, seconds);
    var saved := started[copy.id := stale];
    assert Active(saved[copy.id], uid, gid) && Active(saved[nextId], uid, gid);
    var found := FindOne(saved, nextId + 1, uid, gid);
    assert found.value.id <= copy.id;
    assert found.value.id == copy.id by {
      forall k | k in rows && k != copy.id ensures !Active(saved[k], uid, gid) {
        assert saved[k] == started[k];
      }
    }
  }

  /** The save the search evidently intends: the copy is written only while
      the stored row is still running or finished; a superseded row stays
      superseded. */
  function GuardedSave(rows: Table, record: PaiRecord): Table {
    if record.id in rows && Active(rows[record.id], record.uid, record.gid) then rows[record.id := record]
    else rows
  }

  /** Guarded saves keep every caller at one running-or-finished row. */
  lemma GuardedSaveKeepsOneActive(rows: Table, nextId: nat, record: PaiRecord, uid: string, gid: string)
    requires TableValid(rows, nextId) && AtMostOneActive(rows, uid, gid)
    ensures TableValid(GuardedSave(rows, record), nextId)
    ensures AtMostOneActive(GuardedSave(rows, record), uid, gid)
  {
    var saved := GuardedSave(rows, record);
    forall i, j | i in saved && j in saved && Active(saved[i], uid, gid) && Active(saved[j], uid, gid)
      ensures i == j
    {
      assert Active(rows[i], uid, gid) && Active(rows[j], uid, gid);
    }
  }

  /** With guarded saves the scenario of `StaleSaveRevives` is harmless: the
      stale copy is not written and the new search stays the one reported. */
  lemma GuardedStaleSaveIgnored(rows: Table, nextId: nat, uid: string, gid: string, target: string, now: int,
                                copy: PaiRecord, progress: int, seconds: int)
    requires TableValid(rows, nextId) && AtMostOneActive(rows, uid, gid)
    requires FindOne(rows, nextId, uid, gid) == Some(copy)
    ensures var started := StartTask(rows, nextId, uid, gid, target, now);
      && TableValid(started, nextId + 1)
      && GuardedSave(started, ProgressUpdate(copy, progress, seconds)) == started
      && FindOne(started, nextId + 1, uid, gid) == Some(NewTask(nextId, uid, gid, target, now))
  {
    StartTaskEffect(rows, nextId, uid, gid, target, now);
    QueryAfterStart(rows, nextId, uid, gid, target, now);
  }

  // ---------------------------------------------------------------------
  // The batch search (pai.plugin.js:33-71) over an abstract digit source
  // ---------------------------------------------------------------------

  /** `batchSize`. */
  const BatchSize: nat := 1000

  /** Where the search stands before a batch: no occurrence of `target` lies
      wholly inside the first `n` characters of the stream. */
  ghost predicate NoneBefore(digit: nat -> char, target: string, n: nat) {
    forall q: nat :: q < n && q + |target| <= n ==> !StreamOccursAt(digit, target, q)
  }

  /** `indexOf` on the first `n` characters finds no occurrence exactly when
      none lies wholly inside them. */
  lemma MissInPrefix(digit: nat -> char, target: string, n: nat)
    requires IndexOf(Prefix(digit, n), target) == -1
    ensures NoneBefore(digit, target, n)
  {
    IndexOfFirst(Prefix(digit, n), target);
    forall q: nat | q < n && q + |target| <= n
      ensures !StreamOccursAt(digit, target, q)
    {
      OccursInPrefix(digit, target, n, q);
    }
  }

  /** `p` is the 1-based position of the first occurrence of `target` in the
      stream, that occurrence ends inside the batch that starts at `done`,
      and that batch was started because `done < maxDigits`. */
  ghost predicate FirstHit(digit: nat -> char, target: string, p: nat, done: nat, maxDigits: nat) {
    && p >= 1 && FirstOccurrence(digit, target, p - 1)
    && done < maxDigits
    && p - 1 + |target| <= done + BatchSize
    && (done > 0 ==> done < p - 1 + |target|)
  }

  /** A hit of `indexOf` on the first `i + 1000` characters, when the first
      `i` held none, is the first occurrence in the whole stream. */
  lemma HitInBatch(digit: nat -> char, target: string, i: nat, maxDigits: nat)
    requires i < maxDigits
    requires NoneBefore(digit, target, i)
    requires IndexOf(Prefix(digit, i + BatchSize), target) >= 0
    ensures FirstHit(digit, target, IndexOf(Prefix(digit, i + BatchSize), target) + 1, i, maxDigits)
  {
    var idx: nat := IndexOf(Prefix(digit, i + BatchSize), target);
    IndexOfFirst(Prefix(digit, i + BatchSize), target);
    OccursInPrefix(digit, target, i + BatchSize, idx);
    forall q: nat | q < idx ensures !StreamOccursAt(digit, target, q) {
      OccursInPrefix(digit, target, i + BatchSize, q);
    }
    assert idx < i && idx + |target| <= i ==> !StreamOccursAt(digit, target, idx);
  }

  /** The batch appended to the first `i` characters gives the first
      `i + |batch|`. */
  lemma PrefixAppend(digit: nat -> char, i: nat, batch: string)
    requires forall k :: 0 <= k < |batch| ==> batch[k] == digit(i + k)
    ensures Prefix(digit, i) + batch == Prefix(digit, i + |batch|)
  {
    var s, t := Prefix(digit, i) + batch, Prefix(digit, i + |batch|);
    forall k | 0 <= k < |s| ensures s[k] == t[k] {
      if k >= i {
        assert s[k] == batch[k - i];
      }
    }
  }

  /** The values `onProgress` receives after `n` batches without a match:
      1000, 2000, ..., n * 1000. */
  function Milestones(n: nat): (r: seq<nat>)
    ensures |r| == n && forall j :: 0 <= j < n ==> r[j] == (j + 1) * BatchSize
  {
    if n == 0 then [] else Milestones(n - 1) + [n * BatchSize]
  }

  /** The inner loop of one batch: the 1000 characters at positions i,
      i + 1, ... */
  method ReadBatch(digit: nat -> char, i: nat) returns (batch: string)
    ensures |batch| == BatchSize
    ensures forall k :: 0 <= k < BatchSize ==> batch[k] == digit(i + k)
  {
    batch := "";
    for j := 0 to BatchSize
      invariant |batch| == j && forall k :: 0 <= k < j ==> batch[k] == digit(i + k)
    {
      batch := batch + [digit(i + j)];
    }
  }

  /** One batch of the search: appending the batch read at `i` to the first
      `i` characters gives the first `i + 1000`, and searching them either
      finds the first occurrence or shows there is none in them. */
  lemma BatchStep(digit: nat -> char, target: string, i: nat, maxDigits: nat, piDigits: string, batch: string)
    requires i < maxDigits
    requires piDigits == Prefix(digit, i) && NoneBefore(digit, target, i)
    requires |batch| == BatchSize && forall k :: 0 <= k < BatchSize ==> batch[k] == digit(i + k)
    ensures piDigits + batch == Prefix(digit, i + BatchSize)
    ensures var idx := IndexOf(piDigits + batch, target);
      && (idx != -1 ==> FirstHit(digit, target, idx + 1, i, maxDigits))
      && (idx == -1 ==> NoneBefore(digit, target, i + BatchSize))
  {
    PrefixAppend(digit, i, batch);
    if IndexOf(piDigits + batch, target) != -1 {
      HitInBatch(digit, target, i, maxDigits);
    } else {
      MissInPrefix(digit, target, i + BatchSize);
    }
  }

  /** `slowFindInPi(target, onProgress)`, where `digit(n)` stands for the
      character the inner loop computes for position n and `maxDigits` for
      the loop bound (Infinity in the source). Digits are appended 1000 at a
      time and the whole accumulated string is searched, so a match that
      straddles two batches is found: the result is 1 + the index of the
      first occurrence of `target` in the stream. `progress` lists the values
      passed to `onProgress`: 1000, 2000, ..., one per batch without a
      match. */
  method SlowFindInPi(target: string, digit: nat -> char, maxDigits: nat)
    returns (result: Option<nat>, progress: seq<nat>)
    ensures progress == Milestones(|progress|)
    ensures result.Some? ==> FirstHit(digit, target, result.value, |progress| * BatchSize, maxDigits)
    ensures result.None? ==>
      var done := |progress| * BatchSize;
      && done - BatchSize < maxDigits <= done
      && NoneBefore(digit, target, done)
  {
    var piDigits := "";
    var i := 0;
    progress := [];
    while i < maxDigits
      invariant i == |progress| * BatchSize
      invariant i > 0 ==> i - BatchSize < maxDigits
      invariant piDigits == Prefix(digit, i)
      invariant NoneBefore(digit, target, i)
      invariant progress == Milestones(|progress|)
    {
      var batch := ReadBatch(digit, i);
      BatchStep(digit, target, i, maxDigits, piDigits, batch);
      piDigits := piDigits + batch;
      var idx := IndexOf(piDigits, target);
      if idx != -1 {
        assert FirstHit(digit, target, idx + 1, |progress| * BatchSize, maxDigits);
        return Some(idx + 1), progress;
      }
      progress := progress + [i + BatchSize];
      i := i + BatchSize;
    }
    result := None;
  }
}
