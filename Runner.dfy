/**
 * `run_script`: for every client in turn, resolve its folder, search it, and
 * either collect the rows found or record the client as not found; write the
 * report only when some row was collected.
 *
 * The authenticated Drive service is the value `Service`: what the folder
 * query returns for a client name, and the listing of a folder id. Writing the
 * spreadsheet is modelled by the report value the run produces (`None`: no
 * file is written).
 */
module Runner {
  import opened Wrappers
  import opened ArchiveSearch

  datatype Service = Service(folders: string -> seq<FolderHit>, listing: string -> seq<Entry>)

  /** `if folder_id:` is Python truthiness: both no id and the empty id fail it. */
  predicate Resolved(id: Option<string>)
    ensures id.None? ==> !Resolved(id)
    ensures id == Some("") ==> !Resolved(id)
    ensures id.Some? && id.value != "" ==> Resolved(id)
  {
    id.Some? && id.value != ""
  }

  /** The rows one client contributes: its folder's search, or nothing when no folder resolved. */
  function ClientRows(service: Service, client: string, target: string, day: string -> string): (rows: seq<Row>)
    ensures forall r :: r in rows ==> RowFits(r, client, target)
    ensures !Resolved(FolderId(service.folders(client))) ==> rows == []
  {
    var id := FolderId(service.folders(client));
    if Resolved(id) then SearchFolder(service.listing(id.value), client, target, day) else []
  }

  /** The clients that contribute no row, in input order. */
  function Unmatched(service: Service, clients: seq<string>, target: string, day: string -> string): seq<string> {
    if clients == [] then []
    else
      var last := clients[|clients| - 1];
      Unmatched(service, clients[..|clients| - 1], target, day)
      + (if ClientRows(service, last, target, day) == [] then [last] else [])
  }

  /** All rows, client after client. */
  function Collected(service: Service, clients: seq<string>, target: string, day: string -> string): seq<Row> {
    if clients == [] then []
    else
      Collected(service, clients[..|clients| - 1], target, day)
      + ClientRows(service, clients[|clients| - 1], target, day)
  }

  /** The report the run writes: the collected rows, or no file when there are none. */
  function Report(rows: seq<Row>): (report: Option<seq<Row>>)
    ensures report.Some? <==> rows != []
    ensures report.Some? ==> report.value == rows
  {
    if rows == [] then None else Some(rows)
  }

  /** The client loop of `run_script`, returning the not-found list and the report it writes. */
  method RunScript(service: Service, clients: seq<string>, target: string, day: string -> string)
    returns (notFound: seq<string>, report: Option<seq<Row>>)
    ensures notFound == Unmatched(service, clients, target, day)
    ensures report == Report(Collected(service, clients, target, day))
    ensures forall c :: c in clients ==> (c in notFound <==> ClientRows(service, c, target, day) == [])
    ensures forall c :: c in notFound ==> c in clients
    ensures report.Some? ==> forall r :: r in report.value ==>
              r.client in clients && r.client !in notFound && r.modified == target
    ensures forall c :: c in clients && c !in notFound ==>
              report.Some? && exists r :: r in report.value && r.client == c
    ensures report.None? <==> notFound == clients
  {
    notFound := [];
    var rows: seq<Row> := [];
    for i := 0 to |clients|
      invariant notFound == Unmatched(service, clients[..i], target, day)
      invariant rows == Collected(service, clients[..i], target, day)
    {
      var client := clients[i];
      assert clients[..i + 1][..i] == clients[..i];
      var id := FolderId(service.folders(client));
      if Resolved(id) {
        var data := SearchFolder(service.listing(id.value), client, target, day);
        if data != [] {
          rows := rows + data;
        } else {
          notFound := notFound + [client];
        }
      } else {
        notFound := notFound + [client];
      }
    }
    assert clients[..|clients|] == clients;
    report := if rows != [] then Some(rows) else None;
    forall c | c in clients
      ensures c in notFound <==> ClientRows(service, c, target, day) == []
    {
      UnmatchedMembers(service, clients, target, day, c);
    }
    forall c | c in notFound
      ensures c in clients
    {
      UnmatchedMembers(service, clients, target, day, c);
    }
    forall r | r in rows
      ensures r.client in clients && r.client !in notFound && r.modified == target
    {
      CollectedRowsBelongToMatchedClients(service, clients, target, day, r);
    }
    forall c | c in clients && c !in notFound
      ensures exists r :: r in rows && r.client == c
    {
      UnmatchedMembers(service, clients, target, day, c);
      MatchedClientsContribute(service, clients, target, day, c);
    }
    NoReportIffAllUnmatched(service, clients, target, day);
  }

  /** A client is listed as not found exactly when it is an input client that contributes no row. */
  lemma {:induction false} UnmatchedMembers(service: Service, clients: seq<string>, target: string, day: string -> string, c: string)
    ensures c in Unmatched(service, clients, target, day) <==>
            c in clients && ClientRows(service, c, target, day) == []
  {
    if clients != [] {
      var init := clients[..|clients| - 1];
      UnmatchedMembers(service, init, target, day, c);
      assert clients == init + [clients[|clients| - 1]];
    }
  }

  /** Every collected row comes from an input client with rows, so that client is not in the not-found list. */
  lemma {:induction false} CollectedRowsBelongToMatchedClients(service: Service, clients: seq<string>, target: string, day: string -> string, r: Row)
    requires r in Collected(service, clients, target, day)
    ensures r in ClientRows(service, r.client, target, day)
    ensures r.client in clients && r.client !in Unmatched(service, clients, target, day)
    ensures RowFits(r, r.client, target)
  {
    var init := clients[..|clients| - 1];
    var last := clients[|clients| - 1];
    assert clients == init + [last];
    if r in Collected(service, init, target, day) {
      CollectedRowsBelongToMatchedClients(service, init, target, day, r);
    } else {
      assert r in ClientRows(service, last, target, day);
    }
    UnmatchedMembers(service, clients, target, day, r.client);
  }

  /** A client with rows has at least one of them in the collected rows. */
  lemma {:induction false} MatchedClientsContribute(service: Service, clients: seq<string>, target: string, day: string -> string, c: string)
    requires c in clients && ClientRows(service, c, target, day) != []
    ensures exists r :: r in Collected(service, clients, target, day) && r.client == c
  {
    var init := clients[..|clients| - 1];
    var last := clients[|clients| - 1];
    assert clients == init + [last];
    var rows := ClientRows(service, c, target, day);
    if c == last {
      assert rows[0] in Collected(service, clients, target, day);
    } else {
      MatchedClientsContribute(service, init, target, day, c);
    }
  }

  /** No report is written exactly when every client is listed as not found. */
  lemma {:induction false} NoReportIffAllUnmatched(service: Service, clients: seq<string>, target: string, day: string -> string)
    ensures Collected(service, clients, target, day) == [] <==> Unmatched(service, clients, target, day) == clients
  {
    if clients != [] {
      var init := clients[..|clients| - 1];
      var last := clients[|clients| - 1];
      NoReportIffAllUnmatched(service, init, target, day);
      assert clients == init + [last];
      UnmatchedLength(service, init, target, day);
      if Unmatched(service, clients, target, day) == clients {
        assert Unmatched(service, init, target, day) == init;
      }
    }
  }

  lemma {:induction false} UnmatchedLength(service: Service, clients: seq<string>, target: string, day: string -> string)
    ensures |Unmatched(service, clients, target, day)| <= |clients|
  {
    if clients != [] {
      UnmatchedLength(service, clients[..|clients| - 1], target, day);
    }
  }

  /** The not-found list keeps input order: a run over `a + b` lists `a`'s clients before `b`'s. */
  lemma {:induction false} UnmatchedKeepsOrder(service: Service, a: seq<string>, b: seq<string>, target: string, day: string -> string)
    ensures Unmatched(service, a + b, target, day) == Unmatched(service, a, target, day) + Unmatched(service, b, target, day)
    decreases |b|
  {
    if b == [] {
      assert a + b == a;
    } else {
      var init := b[..|b| - 1];
      assert (a + b)[..|a + b| - 1] == a + init;
      UnmatchedKeepsOrder(service, a, init, target, day);
    }
  }

  /** A client whose folder does not resolve is listed as not found and contributes no row. */
  lemma UnresolvedClientNotFound(service: Service, clients: seq<string>, target: string, day: string -> string, c: string)
    requires c in clients && !Resolved(FolderId(service.folders(c)))
    ensures c in Unmatched(service, clients, target, day)
    ensures forall r :: r in Collected(service, clients, target, day) ==> r.client != c
  {
    UnmatchedMembers(service, clients, target, day, c);
    forall r | r in Collected(service, clients, target, day)
      ensures r.client != c
    {
      CollectedRowsBelongToMatchedClients(service, clients, target, day, r);
    }
  }

  /** Two clients, one with a matching archive and one without: only the second is listed. */
  lemma OnlyUnmatchedClientListed(service: Service, hit: string, miss: string, target: string, day: string -> string)
    requires ClientRows(service, hit, target, day) != []
    requires ClientRows(service, miss, target, day) == []
    ensures Unmatched(service, [hit, miss], target, day) == [miss]
  {
    assert [hit, miss][..1] == [hit];
    assert [hit][..0] == [];
    assert Unmatched(service, [hit], target, day) == [];
  }
}
