/**
 * What the client operations promise, proved about the functions their
 * methods are verified against.
 */
module ClientServiceProps {
  import opened Base
  import opened DbValue
  import opened Tables
  import opened TaskDb
  import opened ClientService
  import DbWhere

  /** Some row of the table satisfies `p`, as `COUNT(*) > 0` or `affectedRows > 0` would report. */
  lemma SomeSelected<T>(xs: seq<T>, p: T -> bool)
    ensures |Select(xs, p)| > 0 <==> exists k :: 0 <= k < |xs| && p(xs[k])
  {
    SelectAllOrNone(xs, p);
  }

  // ---------------------------------------------------------------------
  // getAllClients

  /** The listed clients are the unarchived ones, in table order. */
  lemma GetAllClientsExactly(s: State)
    ensures forall c :: c in Select(s.clients, ActiveClient) <==> c in s.clients && Active(c.archived)
  {
    SelectMembers(s.clients, ActiveClient);
  }

  // ---------------------------------------------------------------------
  // createClient

  lemma CreateClientOutcome(s: State, data: Row)
    ensures var (s2, r) := CreateClientSpec(s, data);
      var name := Get(data, "client_name");
      && (r.Err? <==> name == Undefined || name == Null)
      && (r.Err? ==> s2 == s && r.error == NotNullError("client_name"))
      && (r.Ok? ==>
            && s2.tasks == s.tasks && s2.projects == s.projects
            && |s2.clients| == |s.clients| + 1 && s2.clients[..|s.clients|] == s.clients
            && var c := s2.clients[|s.clients|];
               && r.value == ClientEcho(c.id, name, Get(data, "contact_info"))
               && c.id == s.nextClientId && s2.nextClientId == c.id + 1
               && c.name == name && c.contactInfo == Param(Get(data, "contact_info"))
               && Select(s2.clients, ActiveClient) == Select(s.clients, ActiveClient) + [c])
  {
    var (s2, r) := CreateClientSpec(s, data);
    if r.Ok? {
      var c := s2.clients[|s.clients|];
      assert s2.clients == s.clients + [c];
      SelectAppend(s.clients, [c], ActiveClient);
      assert [c][..0] == [];
    }
  }

  lemma CreateClientValid(s: State, data: Row)
    requires ValidState(s)
    ensures ValidState(CreateClientSpec(s, data).0)
  {
  }

  // ---------------------------------------------------------------------
  // updateClient

  lemma UpdateClientOutcome(s: State, id: int, data: Row)
    ensures var (s2, r) := UpdateClientSpec(s, id, data);
      var name, contact := Get(data, "client_name"), Get(data, "contact_info");
      && (r == Ok(None) <==> forall k :: 0 <= k < |s.clients| ==> s.clients[k].id != id)
      && (r.Err? <==> (exists k :: 0 <= k < |s.clients| && s.clients[k].id == id) && (name == Undefined || name == Null))
      && (r.Err? || r == Ok(None) ==> s2 == s)
      && (r.Ok? && r.value.Some? ==>
            && r.value.value == ClientEcho(id, name, contact)
            && s2.tasks == s.tasks && s2.projects == s.projects && s2.nextClientId == s.nextClientId
            && |s2.clients| == |s.clients|
            && exists k :: 0 <= k < |s.clients| && s.clients[k].id == id
                 && s2.clients[k] == Client(id, name, Param(contact), s.clients[k].archived)
                 && forall j :: 0 <= j < |s.clients| && j != k ==> s2.clients[j] == s.clients[j])
  {
    match FirstIndex(s.clients, ClientWithId(id))
    case None =>
    case Some(k) =>
      assert ClientWithId(id)(s.clients[k]);
  }

  /** Repeating an update with the same data changes nothing further and answers the same. */
  lemma UpdateClientIdempotent(s: State, id: int, data: Row)
    ensures var (s2, r) := UpdateClientSpec(s, id, data);
      UpdateClientSpec(s2, id, data) == (s2, r)
  {
    var (s2, r) := UpdateClientSpec(s, id, data);
    match FirstIndex(s.clients, ClientWithId(id))
    case None =>
    case Some(k) =>
      if r.Ok? {
        FirstIndexSameRows(s.clients, s2.clients, ClientWithId(id), k);
        assert s2.clients[k := s2.clients[k]] == s2.clients;
      }
  }

  /** Rewriting the first matching row so that it still matches leaves it the first match. */
  lemma FirstIndexSameRows(xs: seq<Client>, ys: seq<Client>, p: Client -> bool, k: nat)
    requires FirstIndex(xs, p) == Some(k)
    requires |ys| == |xs| && p(ys[k])
    requires forall j :: 0 <= j < |xs| && j != k ==> ys[j] == xs[j]
    ensures FirstIndex(ys, p) == Some(k)
  {
  }

  lemma UpdateClientValid(s: State, id: int, data: Row)
    requires ValidState(s)
    ensures ValidState(UpdateClientSpec(s, id, data).0)
  {
  }

  // ---------------------------------------------------------------------
  // archiveClient

  /** The UPDATE alone archives the first active client with the id, if there is one, and changes nothing else. */
  lemma ArchiveClientRowOutcome(s: State, id: int)
    ensures var (s2, changed) := ArchiveClientRow(s, id);
      && (changed <==> exists k :: 0 <= k < |s.clients| && s.clients[k].id == id && Active(s.clients[k].archived))
      && (!changed ==> s2 == s)
      && s2.tasks == s.tasks && s2.projects == s.projects && s2.nextClientId == s.nextClientId
      && |s2.clients| == |s.clients|
      && (forall k :: 0 <= k < |s.clients| ==> s2.clients[k].id == s.clients[k].id)
      && (forall k :: 0 <= k < |s.clients| && s.clients[k] != s2.clients[k] ==>
            s2.clients[k] == s.clients[k].(archived := Num(1)) && s.clients[k].id == id)
  {
    var f := FirstIndex(s.clients, ArchivableClient(id));
    if f.Some? {
      assert ArchivableClient(id)(s.clients[f.value]);
    } else {
      forall k | 0 <= k < |s.clients| && s.clients[k].id == id
        ensures !Active(s.clients[k].archived)
      {
        assert !ArchivableClient(id)(s.clients[k]);
      }
    }
  }

  /** With client ids distinct, no active client with the id is left after the UPDATE. */
  lemma ArchiveClientRowLeavesNoneActive(s: State, id: int)
    requires ValidState(s)
    ensures var s2 := ArchiveClientRow(s, id).0;
      forall k :: 0 <= k < |s2.clients| && s2.clients[k].id == id ==> !Active(s2.clients[k].archived)
  {
    var f := FirstIndex(s.clients, ArchivableClient(id));
    if f.Some? {
      assert ArchivableClient(id)(s.clients[f.value]);
    } else {
      forall k | 0 <= k < |s.clients| && s.clients[k].id == id
        ensures !Active(s.clients[k].archived)
      {
        assert !ArchivableClient(id)(s.clients[k]);
      }
    }
  }

  /** The intended archiveClient: refused while the client has an active project, otherwise the UPDATE. */
  lemma ArchiveClientOutcome(s: State, id: int)
    ensures var (s2, r) := ArchiveClientSpec(s, id);
      var busy := exists k :: 0 <= k < |s.projects| && s.projects[k].clientId == Num(id) && Active(s.projects[k].archived);
      && (r.Err? <==> busy)
      && (r.Err? ==> s2 == s && r.error == ActiveProjectsMessage)
      && (r == Ok(true) <==> !busy && exists k :: 0 <= k < |s.clients| && s.clients[k].id == id && Active(s.clients[k].archived))
      && (r == Ok(false) ==> s2 == s)
      && (r.Ok? ==>
            && s2.tasks == s.tasks && s2.projects == s.projects && s2.nextClientId == s.nextClientId
            && |s2.clients| == |s.clients|
            && (forall k :: 0 <= k < |s.clients| ==> s2.clients[k].id == s.clients[k].id)
            && (forall k :: 0 <= k < |s.clients| && s.clients[k] != s2.clients[k] ==>
                  s2.clients[k] == s.clients[k].(archived := Num(1)) && s.clients[k].id == id))
  {
    SomeSelected(s.projects, ActiveProjectOf(id));
    ArchiveClientRowOutcome(s, id);
  }

  /** With client ids distinct, no active client with the id is left once archiveClient succeeds. */
  lemma ArchiveClientLeavesNoneActive(s: State, id: int)
    requires ValidState(s)
    ensures var (s2, r) := ArchiveClientSpec(s, id);
      r.Ok? ==> forall k :: 0 <= k < |s2.clients| && s2.clients[k].id == id ==> !Active(s2.clients[k].archived)
  {
    ArchiveClientRowLeavesNoneActive(s, id);
  }

  /** Archiving a client twice: the second call changes nothing and reports no change. */
  lemma ArchiveClientTwice(s: State, id: int)
    requires ValidState(s)
    ensures var (s2, r) := ArchiveClientSpec(s, id);
      r.Ok? ==> ArchiveClientSpec(s2, id) == (s2, Ok(false))
  {
    ArchiveClientLeavesNoneActive(s, id);
    var (s2, r) := ArchiveClientSpec(s, id);
    if r.Ok? {
      SomeSelected(s.projects, ActiveProjectOf(id));
      SomeSelected(s2.projects, ActiveProjectOf(id));
    }
  }

  lemma ArchiveClientValid(s: State, id: int)
    requires ValidState(s)
    ensures ValidState(ArchiveClientSpec(s, id).0)
  {
  }

  // ---------------------------------------------------------------------
  // archiveClient as written

  /** On the driver's reply the guard reads `undefined`, whatever the count. */
  lemma DriverReplyGuardNeverFires(n: nat)
    ensures !Truthy(CountPropertyAsWritten(DriverCount(n)))
  {
  }

  /** On the test double's reply the guard is the intended one. */
  lemma MockReplyGuardAgrees(n: nat)
    ensures Truthy(CountPropertyAsWritten(MockReply(n))) <==> n > 0
  {
  }

  /** The engine's `results.length` is positive iff some row is flagged. */
  lemma {:induction false} KeptSome(rows: seq<Row>, flags: seq<bool>)
    requires |flags| == |rows|
    ensures |DbWhere.Keep(rows, flags)| > 0 <==> exists k :: 0 <= k < |flags| && flags[k]
    decreases |rows|
  {
    if rows != [] {
      var n := |rows| - 1;
      KeptSome(rows[..n], flags[..n]);
      if flags[n] {
        assert |DbWhere.Keep(rows, flags)| > 0;
      } else {
        assert DbWhere.Keep(rows, flags) == DbWhere.Keep(rows[..n], flags[..n]) + [];
        assert (exists k :: 0 <= k < |flags| && flags[k]) ==> exists k :: 0 <= k < n && flags[..n][k];
      }
    }
  }

  /** The test double's `archived IS NULL OR archived = 0`: `IS NULL` also takes `undefined`. */
  predicate MockActive(archived: Value) {
    Missing(archived) || archived == Num(0)
  }

  /** The test double's COUNT finds the client busy: the first project is an active one of it, or a later active one has no `client_id`. */
  predicate MockBusy(ps: seq<Project>, id: int) {
    (|ps| > 0 && ps[0].clientId == Num(id) && MockActive(ps[0].archived)) ||
    exists k :: 0 < k < |ps| && ps[k].clientId == Undefined && MockActive(ps[k].archived)
  }

  /** The test double's UPDATE flags the first client: it has the id and is active. */
  predicate MockFirst(cs: seq<Client>, id: int) {
    |cs| > 0 && cs[0].id == id && MockActive(cs[0].archived)
  }

  /** The guard on the test double fires iff the client is busy in the sense of MockBusy. */
  lemma MockGuard(ps: seq<Project>, id: int)
    ensures var rows := ProjectRows(ps);
      Truthy(CountPropertyAsWritten(MockReply(|DbWhere.Keep(rows, MockFlags(rows, [Num(id)], 0))|))) <==> MockBusy(ps, id)
  {
    var rows := ProjectRows(ps);
    var busy := MockFlags(rows, [Num(id)], 0);
    KeptSome(rows, busy);
    forall k | 0 <= k < |ps|
      ensures busy[k] <==> ps[k].clientId == (if k == 0 then Num(id) else Undefined) && MockActive(ps[k].archived)
    {
      assert rows[k] == ProjectRow(ps[k]);
    }
  }

  /** The UPDATE on the test double archives the first client alone, when MockFirst holds, and reports whether it did. */
  lemma MockUpdate(cs: seq<Client>, id: int)
    ensures var rows := ClientRows(cs);
      var flags := MockFlags(rows, [Num(id)], 0);
      && (|DbWhere.Keep(rows, flags)| > 0 <==> MockFirst(cs, id))
      && ArchiveFlagged(cs, flags) == if MockFirst(cs, id) then cs[0 := cs[0].(archived := Num(1))] else cs
  {
    var rows := ClientRows(cs);
    var flags := MockFlags(rows, [Num(id)], 0);
    KeptSome(rows, flags);
    forall k | 0 <= k < |cs|
      ensures flags[k] <==> k == 0 && MockFirst(cs, id)
    {
      assert rows[k] == ClientRow(cs[k]);
    }
    if MockFirst(cs, id) {
      assert flags[0];
      assert ArchiveFlagged(cs, flags) == cs[0 := cs[0].(archived := Num(1))];
    } else {
      assert !exists k :: 0 <= k < |flags| && flags[k];
      assert ArchiveFlagged(cs, flags) == cs;
    }
  }

  /**
   * On the test double, archiveClient as written looks at the first row of
   * each table alone with the id (the later rows read `undefined` for `?`):
   * it refuses iff MockBusy; otherwise it archives the first client when
   * that one has the id and is active, and no other.
   */
  lemma ArchiveClientOnMock(s: State, id: int)
    ensures var (s2, r) := ArchiveClientAsWritten(Mock, s, id);
      && (r.Err? <==> MockBusy(s.projects, id))
      && (r.Err? ==> s2 == s && r.error == ActiveProjectsMessage)
      && (!MockBusy(s.projects, id) ==>
            r == Ok(MockFirst(s.clients, id)) &&
            s2 == if MockFirst(s.clients, id) then s.(clients := s.clients[0 := s.clients[0].(archived := Num(1))]) else s)
  {
    MockGuard(s.projects, id);
    MockUpdate(s.clients, id);
  }

  /**
   * Where the first row of each table carries the verdict and no column
   * holds `undefined`, archiveClient on the test double is the intended one.
   */
  lemma ArchiveClientOnMockAgrees(s: State, id: int)
    requires forall k :: 0 <= k < |s.projects| ==> s.projects[k].clientId != Undefined && s.projects[k].archived != Undefined
    requires forall k :: 0 <= k < |s.clients| ==> s.clients[k].archived != Undefined
    requires (|s.projects| > 0 && ActiveProjectOf(id)(s.projects[0])) || forall k :: 0 < k < |s.projects| ==> !ActiveProjectOf(id)(s.projects[k])
    requires (|s.clients| > 0 && ArchivableClient(id)(s.clients[0])) || forall k :: 0 < k < |s.clients| ==> !ArchivableClient(id)(s.clients[k])
    ensures ArchiveClientAsWritten(Mock, s, id) == ArchiveClientSpec(s, id)
  {
    ArchiveClientOnMock(s, id);
    SomeSelected(s.projects, ActiveProjectOf(id));
    if |s.projects| > 0 && ActiveProjectOf(id)(s.projects[0]) {
    } else {
      assert forall k :: 0 <= k < |s.projects| ==> !ActiveProjectOf(id)(s.projects[k]);
    }
    var f := FirstIndex(s.clients, ArchivableClient(id));
    if |s.clients| > 0 && ArchivableClient(id)(s.clients[0]) {
      assert f == Some(0);
    } else {
      assert forall k :: 0 <= k < |s.clients| ==> !ArchivableClient(id)(s.clients[k]);
      assert f == None;
    }
  }

  /** Client 1 with an active project in the second row of the projects. */
  const LaterProject: State := State([], [Project(1, Str("p"), Null, Null, Num(2), Num(0)), Project(2, Str("q"), Null, Null, Num(1), Num(0))],
                                     [Client(1, Str("c"), Null, Num(0))], 1, 3, 2)

  /** Client 1 in the second row of the clients, with no project. */
  const LaterClient: State := State([], [], [Client(2, Str("b"), Null, Num(0)), Client(1, Str("c"), Null, Num(0))], 1, 1, 3)

  /** LaterProject keeps the tables' invariant. */
  lemma LaterProjectValid()
    ensures ValidState(LaterProject)
  {
    var s := LaterProject;
    assert s.projects[0].id == 1 && s.projects[1].id == 2;
  }

  /** The project of client 1 sits in the row that reads `undefined` for `?`, so the test double archives the client. */
  lemma MockMissesLaterProject()
    ensures ArchiveClientAsWritten(Mock, LaterProject, 1) == (LaterProject.(clients := [Client(1, Str("c"), Null, Num(1))]), Ok(true))
  {
    var s := LaterProject;
    MockGuard(s.projects, 1);
    assert !MockBusy(s.projects, 1);
    MockUpdate(s.clients, 1);
    assert s.clients[0 := s.clients[0].(archived := Num(1))] == [Client(1, Str("c"), Null, Num(1))];
  }

  /** As intended, that call is refused. */
  lemma LaterProjectRefused()
    ensures ArchiveClientSpec(LaterProject, 1) == (LaterProject, Err(ActiveProjectsMessage))
  {
    SomeSelected(LaterProject.projects, ActiveProjectOf(1));
    assert ActiveProjectOf(1)(LaterProject.projects[1]);
  }

  /** LaterClient keeps the tables' invariant. */
  lemma LaterClientValid()
    ensures ValidState(LaterClient)
  {
    var s := LaterClient;
    assert s.clients[0].id == 2 && s.clients[1].id == 1;
  }

  /** Client 1 sits in the row that reads `undefined` for `?`, so the test double's UPDATE misses it. */
  lemma MockMissesLaterClient()
    ensures ArchiveClientAsWritten(Mock, LaterClient, 1) == (LaterClient, Ok(false))
  {
    var s := LaterClient;
    MockGuard(s.projects, 1);
    assert !MockBusy(s.projects, 1);
    MockUpdate(s.clients, 1);
    assert !MockFirst(s.clients, 1);
    assert s.(clients := s.clients) == s;
  }

  /** As intended, client 1 is archived. */
  lemma LaterClientArchived()
    ensures ArchiveClientSpec(LaterClient, 1) ==
            (LaterClient.(clients := [Client(2, Str("b"), Null, Num(0)), Client(1, Str("c"), Null, Num(1))]), Ok(true))
  {
    var s := LaterClient;
    SomeSelected(s.projects, ActiveProjectOf(1));
    assert FirstIndex(s.clients, ArchivableClient(1)) == Some(1) by {
      assert !ArchivableClient(1)(s.clients[0]) && ArchivableClient(1)(s.clients[1]);
    }
    assert s.clients[1 := s.clients[1].(archived := Num(1))] == [Client(2, Str("b"), Null, Num(0)), Client(1, Str("c"), Null, Num(1))];
  }

  /**
   * On the driver, archiveClient as written never refuses: it archives the
   * first active client with the id, active projects or not, and leaves no
   * active client with that id.
   */
  lemma ArchiveClientOnDriver(s: State, id: int)
    requires ValidState(s)
    ensures var (s2, r) := ArchiveClientAsWritten(Driver, s, id);
      && (r == Ok(true) <==> exists k :: 0 <= k < |s.clients| && s.clients[k].id == id && Active(s.clients[k].archived))
      && (r == Ok(false) <==> !exists k :: 0 <= k < |s.clients| && s.clients[k].id == id && Active(s.clients[k].archived))
      && (r == Ok(false) ==> s2 == s)
      && s2.tasks == s.tasks && s2.projects == s.projects && |s2.clients| == |s.clients|
      && (forall k :: 0 <= k < |s2.clients| && s2.clients[k].id == id ==> !Active(s2.clients[k].archived))
      && ValidState(s2)
  {
    DriverReplyGuardNeverFires(|Select(s.projects, ActiveProjectOf(id))|);
    ArchiveClientRowOutcome(s, id);
    ArchiveClientRowLeavesNoneActive(s, id);
  }

  /** A client with an active project: on the driver it is archived, as intended it is refused. */
  lemma ActiveProjectDoesNotStopArchive()
    ensures var s := State([], [Project(1, Str("p"), Null, Null, Num(1), Num(0))], [Client(1, Str("c"), Null, Num(0))], 1, 2, 2);
      && ValidState(s)
      && ArchiveClientAsWritten(Driver, s, 1) == (s.(clients := [Client(1, Str("c"), Null, Num(1))]), Ok(true))
      && ArchiveClientSpec(s, 1) == (s, Err(ActiveProjectsMessage))
  {
    var s := State([], [Project(1, Str("p"), Null, Null, Num(1), Num(0))], [Client(1, Str("c"), Null, Num(0))], 1, 2, 2);
    assert s.projects[..0] == [];
    assert ArchivableClient(1)(s.clients[0]);
    assert FirstIndex(s.clients, ArchivableClient(1)) == Some(0);
    assert s.clients[0 := s.clients[0].(archived := Num(1))] == [Client(1, Str("c"), Null, Num(1))];
  }

  // ---------------------------------------------------------------------
  // deleteClient

  lemma DeleteClientOutcome(s: State, id: int)
    ensures var (s2, deleted) := DeleteClientSpec(s, id);
      && (deleted <==> exists k :: 0 <= k < |s.clients| && s.clients[k].id == id)
      && s2.tasks == s.tasks && s2.projects == s.projects && s2.nextClientId == s.nextClientId
      && (forall c :: c in s2.clients <==> c in s.clients && c.id != id)
      && (!deleted ==> s2 == s)
  {
    SelectWhole(s.clients, OtherClient(id));
    SelectMembers(s.clients, OtherClient(id));
    SelectAllOrNone(s.clients, OtherClient(id));
  }

  lemma DeleteClientValid(s: State, id: int)
    requires ValidState(s)
    ensures ValidState(DeleteClientSpec(s, id).0)
  {
    var kept := Select(s.clients, OtherClient(id));
    SelectDistinct(s.clients, OtherClient(id), (c: Client) => c.id);
    SelectMembers(s.clients, OtherClient(id));
    forall i | 0 <= i < |kept|
      ensures 0 < kept[i].id < s.nextClientId && kept[i].name != Null
    {
      SelectedRow(s.clients, OtherClient(id), i);
    }
  }
}
