/** The alarm export: the paged query command, the loop that walks the query
    window backwards while a page comes back full, and the final sort by alarm
    id. The server's pages are a finite script of replies. */
module Export {
  import opened Wrappers
  import opened Text
  import Codec
  import Dates
  import Dispatch

  /** The fields of a triggered alarm the export reads. */
  datatype Alarm = Alarm(
    id: int,
    triggeredDate: string,
    summary: string,
    alarmName: string,
    assignee: string,
    acknowledgedUsername: string,
    acknowledgedDate: string)

  /** A page holding this many alarms means more may follow. */
  const PageCap: nat := 500

  // ---------------------------------------------------------------------------
  // The query command
  // ---------------------------------------------------------------------------

  const ExportPath: string := "alarmGetTriggeredAlarmsPaged"

  /** Line 186 as written: the user parameter has no `=`. The template is
      written out at its `&` separators. */
  function ExportCommandAsWritten(start: string, end: string, user: string): (r: string)
    ensures var k := |UserFieldHead(start, end)|;
      k <= |r| && ExportCommand(start, end, user) == r[..k] + "=" + r[k..]
  {
    ExportPath + "?triggeredTimeRange=CUSTOM" + "&customStart=" + start + "&customEnd=" + end
      + "&assignedUser" + user + "&pageSize=0" + "&pageNumber=0"
  }

  /** Everything of the command up to and including `&assignedUser`. */
  function UserFieldHead(start: string, end: string): string {
    ExportPath + "?triggeredTimeRange=CUSTOM" + "&customStart=" + start + "&customEnd=" + end
      + "&assignedUser"
  }

  /** The query command with `assignedUser=` as a proper parameter. */
  function ExportCommand(start: string, end: string, user: string): string {
    ExportPath + "?triggeredTimeRange=CUSTOM" + "&customStart=" + start + "&customEnd=" + end
      + "&assignedUser=" + user + "&pageSize=0" + "&pageNumber=0"
  }

  /** The `&`-separated fields of a command; the first holds the path and the
      time-range parameter. */
  function QueryFields(cmd: string): seq<string> {
    SplitOn(cmd, '&')
  }

  /** The six fields of the query command, with the user field given. */
  function Fields(start: string, end: string, userField: string): seq<string> {
    [ExportPath + "?triggeredTimeRange=CUSTOM", "customStart=" + start, "customEnd=" + end,
     userField, "pageSize=0", "pageNumber=0"]
  }

  /** Joining six fields, three of them a fixed name followed by an argument. */
  lemma JoinTemplate(sep: string, a: string, b: string, x: string, c: string, y: string,
                     d: string, z: string, e: string, f: string)
    ensures Join(sep, [a, b + x, c + y, d + z, e, f])
         == a + (sep + b) + x + (sep + c) + y + (sep + d) + z + (sep + e) + (sep + f)
  {
    JoinCons(sep, e, [f]);
    assert [e] + [f] == [e, f];
    JoinCons(sep, d + z, [e, f]);
    assert [d + z] + [e, f] == [d + z, e, f];
    JoinCons(sep, c + y, [d + z, e, f]);
    assert [c + y] + [d + z, e, f] == [c + y, d + z, e, f];
    JoinCons(sep, b + x, [c + y, d + z, e, f]);
    assert [b + x] + [c + y, d + z, e, f] == [b + x, c + y, d + z, e, f];
    JoinCons(sep, a, [b + x, c + y, d + z, e, f]);
    assert [a] + [b + x, c + y, d + z, e, f] == [a, b + x, c + y, d + z, e, f];
  }

  lemma SeparatorsSplit()
    ensures "&" + "customStart=" == "&customStart="
    ensures "&" + "customEnd=" == "&customEnd="
    ensures "&" + "assignedUser" == "&assignedUser"
    ensures "&" + "assignedUser=" == "&assignedUser="
    ensures "&" + "pageSize=0" == "&pageSize=0"
    ensures "&" + "pageNumber=0" == "&pageNumber=0"
  {
  }

  lemma FixedFieldsPlain()
    ensures '&' !in ExportPath + "?triggeredTimeRange=CUSTOM"
    ensures '&' !in "customStart=" && '&' !in "customEnd="
    ensures '&' !in "pageSize=0" && '&' !in "pageNumber=0"
  {
  }

  lemma FieldsSplit(start: string, end: string, userField: string)
    requires '&' !in start && '&' !in end && '&' !in userField
    ensures SplitOn(Join("&", Fields(start, end, userField)), '&') == Fields(start, end, userField)
  {
    var fs := Fields(start, end, userField);
    FixedFieldsPlain();
    assert '&' !in fs[1] && '&' !in fs[2];
    SplitOnJoin(fs, '&');
  }

  lemma JoinAsWritten(start: string, end: string, user: string)
    ensures Join("&", Fields(start, end, "assignedUser" + user)) == ExportCommandAsWritten(start, end, user)
  {
    JoinTemplate("&", ExportPath + "?triggeredTimeRange=CUSTOM", "customStart=", start, "customEnd=", end,
                 "assignedUser", user, "pageSize=0", "pageNumber=0");
    SeparatorsSplit();
  }

  lemma JoinCorrected(start: string, end: string, user: string)
    ensures Join("&", Fields(start, end, "assignedUser=" + user)) == ExportCommand(start, end, user)
  {
    JoinTemplate("&", ExportPath + "?triggeredTimeRange=CUSTOM", "customStart=", start, "customEnd=", end,
                 "assignedUser=", user, "pageSize=0", "pageNumber=0");
    SeparatorsSplit();
  }

  /** As written, the user field is `assignedUser` followed directly by the
      user name. */
  lemma ExportQueryAsWritten(start: string, end: string, user: string)
    requires '&' !in start && '&' !in end && '&' !in user
    ensures QueryFields(ExportCommandAsWritten(start, end, user)) == Fields(start, end, "assignedUser" + user)
  {
    JoinAsWritten(start, end, user);
    FieldsSplit(start, end, "assignedUser" + user);
  }

  /** The call the program makes sends no `assignedUser=` field at all. */
  lemma AssignedUserDropped(start: string, end: string)
    requires '&' !in start && '&' !in end
    ensures forall f :: f in QueryFields(ExportCommandAsWritten(start, end, "NGCP")) ==> !("assignedUser=" <= f)
  {
    ExportQueryAsWritten(start, end, "NGCP");
    var fs := Fields(start, end, "assignedUserNGCP");
    var p := "assignedUser=";
    assert p[0] == 'a' && p[1] == 's' && p[12] == '=';
    assert ExportPath[1] == 'l';
    assert fs[0][1] == 'l';
    assert fs[1][0] == 'c' && fs[2][0] == 'c';
    assert "assignedUserNGCP"[12] == 'N';
    assert fs[4][0] == 'p' && fs[5][0] == 'p';
    assert "assignedUser" + "NGCP" == "assignedUserNGCP";
    forall f | f in fs
      ensures !(p <= f)
    {
      var i :| 0 <= i < |fs| && fs[i] == f;
      assert i == 0 || i == 1 || i == 2 || i == 3 || i == 4 || i == 5;
    }
  }

  /** Corrected, the fourth field is `assignedUser=<user>`. */
  lemma ExportQuery(start: string, end: string, user: string)
    requires '&' !in start && '&' !in end && '&' !in user
    ensures QueryFields(ExportCommand(start, end, user)) == Fields(start, end, "assignedUser=" + user)
    ensures "assignedUser=" <= QueryFields(ExportCommand(start, end, user))[3]
  {
    JoinCorrected(start, end, user);
    FieldsSplit(start, end, "assignedUser=" + user);
  }

  /** The command the program sends starts with a lower-case letter, so it
      takes the JSON route to the REST URL, with no body since no data is
      passed; the same holds for the corrected command. */
  lemma ExportIsModern(host: string, start: string, end: string, user: string,
                       headers: Dispatch.Headers, dumps: seq<Codec.Param> -> string)
    ensures !Dispatch.IsLegacy(ExportCommandAsWritten(start, end, user))
    ensures Dispatch.RouteAsWritten(host, ExportCommandAsWritten(start, end, user), None, headers, dumps)
         == Success(Dispatch.Request(Dispatch.BaseUrl(host) + ExportCommandAsWritten(start, end, user),
                                     Dispatch.Unserialised(None), headers))
    ensures !Dispatch.IsLegacy(ExportCommand(start, end, user))
    ensures Dispatch.Route(host, ExportCommand(start, end, user), None, headers, dumps)
         == Success(Dispatch.Request(Dispatch.BaseUrl(host) + ExportCommand(start, end, user),
                                     Dispatch.Unserialised(None), headers))
  {
    assert ExportPath[0] == 'a';
    var written := ExportCommandAsWritten(start, end, user);
    assert written[0] == 'a';
    assert Upper(written)[0] == 'A';
    var cmd := ExportCommand(start, end, user);
    assert cmd[0] == 'a';
    assert Upper(cmd)[0] == 'A';
  }

  // ---------------------------------------------------------------------------
  // Sorting by id
  // ---------------------------------------------------------------------------

  predicate SortedById(xs: seq<Alarm>) {
    forall i, j :: 0 <= i < j < |xs| ==> xs[i].id <= xs[j].id
  }

  /** Places `a` before the first alarm whose id is not smaller. */
  function Insert(a: Alarm, ys: seq<Alarm>): (r: seq<Alarm>)
    ensures |r| == |ys| + 1
  {
    if |ys| == 0 || a.id <= ys[0].id then [a] + ys
    else [ys[0]] + Insert(a, ys[1..])
  }

  /** Python's `sorted(xs, key=id)`: insertion sort, which keeps alarms of equal
      id in their original order. */
  function SortById(xs: seq<Alarm>): (r: seq<Alarm>)
    ensures |r| == |xs|
  {
    if |xs| == 0 then [] else Insert(xs[0], SortById(xs[1..]))
  }

  /** The alarms of `xs` with the given id, in their order in `xs`. */
  function WithId(xs: seq<Alarm>, v: int): seq<Alarm> {
    if |xs| == 0 then []
    else (if xs[0].id == v then [xs[0]] else []) + WithId(xs[1..], v)
  }

  lemma {:induction false} InsertPermutes(a: Alarm, ys: seq<Alarm>)
    ensures multiset(Insert(a, ys)) == multiset([a] + ys)
    decreases |ys|
  {
    if |ys| > 0 && a.id > ys[0].id {
      InsertPermutes(a, ys[1..]);
      assert ys == [ys[0]] + ys[1..];
    }
  }

  lemma {:induction false} InsertSorted(a: Alarm, ys: seq<Alarm>)
    requires SortedById(ys)
    ensures SortedById(Insert(a, ys))
    decreases |ys|
  {
    if |ys| > 0 && a.id > ys[0].id {
      InsertSorted(a, ys[1..]);
      InsertBounded(a, ys[1..], ys[0].id);
      var rest := Insert(a, ys[1..]);
      assert Insert(a, ys) == [ys[0]] + rest;
    }
  }

  /** A bound below `a` and below every alarm of `ys` is below every alarm of
      the insertion. */
  lemma {:induction false} InsertBounded(a: Alarm, ys: seq<Alarm>, b: int)
    requires b <= a.id && forall j :: 0 <= j < |ys| ==> b <= ys[j].id
    ensures forall k :: 0 <= k < |Insert(a, ys)| ==> b <= Insert(a, ys)[k].id
    decreases |ys|
  {
    if |ys| > 0 && a.id > ys[0].id {
      InsertBounded(a, ys[1..], b);
      assert Insert(a, ys) == [ys[0]] + Insert(a, ys[1..]);
    }
  }

  lemma {:induction false} SortByIdSorted(xs: seq<Alarm>)
    ensures SortedById(SortById(xs))
    ensures multiset(SortById(xs)) == multiset(xs)
    decreases |xs|
  {
    if |xs| > 0 {
      SortByIdSorted(xs[1..]);
      InsertSorted(xs[0], SortById(xs[1..]));
      InsertPermutes(xs[0], SortById(xs[1..]));
      assert xs == [xs[0]] + xs[1..];
    }
  }

  lemma {:induction false} WithIdConcat(a: seq<Alarm>, b: seq<Alarm>, v: int)
    ensures WithId(a + b, v) == WithId(a, v) + WithId(b, v)
    decreases |a|
  {
    if |a| > 0 {
      assert (a + b)[1..] == a[1..] + b;
      WithIdConcat(a[1..], b, v);
    } else {
      assert a + b == b;
    }
  }

  lemma {:induction false} InsertStable(a: Alarm, ys: seq<Alarm>, v: int)
    requires SortedById(ys)
    ensures WithId(Insert(a, ys), v) == WithId([a] + ys, v)
    decreases |ys|
  {
    if |ys| > 0 && a.id > ys[0].id {
      InsertStable(a, ys[1..], v);
      WithIdConcat([ys[0]], Insert(a, ys[1..]), v);
      WithIdConcat([a], ys[1..], v);
      WithIdConcat([a], ys, v);
      WithIdConcat([ys[0]], ys[1..], v);
      assert [ys[0]] + ys[1..] == ys;
      if ys[0].id == v {
        forall k | 0 <= k < |ys|
          ensures ys[k].id >= v
        {
        }
      }
    }
  }

  /** The sort is stable: the alarms sharing an id keep their relative order. */
  lemma {:induction false} SortByIdStable(xs: seq<Alarm>, v: int)
    ensures WithId(SortById(xs), v) == WithId(xs, v)
    decreases |xs|
  {
    if |xs| > 0 {
      SortByIdStable(xs[1..], v);
      SortByIdSorted(xs[1..]);
      InsertStable(xs[0], SortById(xs[1..]), v);
      WithIdConcat([xs[0]], SortById(xs[1..]), v);
      WithIdConcat([xs[0]], xs[1..], v);
      assert [xs[0]] + xs[1..] == xs;
    }
  }

  // ---------------------------------------------------------------------------
  // Pagination
  // ---------------------------------------------------------------------------

  /** The time window of one fetch. */
  datatype Window = Window(start: string, end: string)

  datatype ExportError =
    | NoData(fetch: nat)   // the fetch returned no alarm list, so `extend` raises
    | OutOfReplies         // the script ended while pages were still full

  /** Every alarm received, batch after batch, duplicates kept. */
  function Received(rs: seq<Option<seq<Alarm>>>): seq<Alarm> {
    if |rs| == 0 then []
    else Received(rs[..|rs| - 1]) + (if rs[|rs| - 1].Some? then rs[|rs| - 1].value else [])
  }

  predicate Full(r: Option<seq<Alarm>>) {
    r.Some? && |r.value| == PageCap
  }

  /** The number of leading full pages. */
  function LeadingFull(rs: seq<Option<seq<Alarm>>>): (n: nat)
    ensures n <= |rs|
    ensures forall k :: 0 <= k < n ==> Full(rs[k])
    ensures n < |rs| ==> !Full(rs[n])
  {
    if |rs| == 0 || !Full(rs[0]) then 0 else 1 + LeadingFull(rs[1..])
  }

  /** The windows fetched so far follow the loop's rule: the start never
      changes, the first end is the given one, and each later end is the
      converted date of the last alarm of the previous page, which was full. */
  predicate Chained(start: string, end: string, windows: seq<Window>, replies: seq<Option<seq<Alarm>>>) {
    && |windows| <= |replies|
    && (forall k :: 0 <= k < |windows| ==> windows[k].start == start)
    && (|windows| > 0 ==> windows[0].end == end)
    && (forall k :: 0 <= k < |windows| - 1 ==>
          Full(replies[k]) && windows[k + 1].end == Dates.ConvertDate(replies[k].value[PageCap - 1].triggeredDate))
  }

  lemma ChainedExtend(start: string, end: string, windows: seq<Window>, replies: seq<Option<seq<Alarm>>>)
    requires Chained(start, end, windows, replies)
    requires 0 < |windows| < |replies| && Full(replies[|windows| - 1])
    ensures Chained(start, end,
                    windows + [Window(start, Dates.ConvertDate(replies[|windows| - 1].value[PageCap - 1].triggeredDate))],
                    replies)
  {
  }

  /** Lines 402-410: fetch, and while the page is full fetch again with the end
      moved to the date of the page's last alarm; then sort everything by id.
      `replies[k]` is the alarm list of the k-th fetch, or `None` when `post`
      returned no list. `windows` are the windows fetched, in order. */
  method Paginate(start: string, end: string, replies: seq<Option<seq<Alarm>>>)
    returns (windows: seq<Window>, r: Result<seq<Alarm>, ExportError>)
    ensures Chained(start, end, windows, replies)
    ensures |windows| == 0 <==> |replies| == 0
    ensures r.Success? ==>
      && |windows| == LeadingFull(replies) + 1
      && (forall k :: 0 <= k < |windows| ==> replies[k].Some?)
      && r.value == SortById(Received(replies[..|windows|]))
    ensures r == Failure(OutOfReplies) <==> LeadingFull(replies) == |replies|
    ensures r == Failure(OutOfReplies) ==> |windows| == |replies|
    ensures r.Failure? && r.error.NoData? ==>
      r.error.fetch == |windows| - 1 && replies[r.error.fetch].None?
  {
    if |replies| == 0 {
      ExitEmpty(start, end, replies);
      return [], Failure(OutOfReplies);
    }
    windows := [Window(start, end)];
    if replies[0].None? {
      ExitNoData(start, end, replies, windows, 0);
      return windows, Failure(NoData(0));
    }
    var alarms := replies[0].value;
    var k := 0;
    while |alarms| == PageCap
      invariant 0 <= k < |replies| && |windows| == k + 1
      invariant replies[k] == Some(alarms)
      invariant Chained(start, end, windows, replies)
      invariant forall j :: 0 <= j < k ==> replies[j].Some?
      decreases |replies| - k
    {
      if k + 1 == |replies| {
        ExitFull(start, end, replies, windows);
        return windows, Failure(OutOfReplies);
      }
      ChainedExtend(start, end, windows, replies);
      windows := windows + [Window(start, Dates.ConvertDate(alarms[PageCap - 1].triggeredDate))];
      k := k + 1;
      if replies[k].None? {
        ExitNoData(start, end, replies, windows, k);
        return windows, Failure(NoData(k));
      }
      alarms := replies[k].value;
    }
    ExitDone(start, end, replies, windows, k);
    return windows, Success(SortById(Received(replies[..k + 1])));
  }

  /** The postconditions of `Paginate` for one way of leaving it. */
  predicate Settles(start: string, end: string, replies: seq<Option<seq<Alarm>>>,
                    windows: seq<Window>, r: Result<seq<Alarm>, ExportError>) {
    && Chained(start, end, windows, replies)
    && (|windows| == 0 <==> |replies| == 0)
    && (r.Success? ==>
          && |windows| == LeadingFull(replies) + 1
          && (forall k :: 0 <= k < |windows| ==> replies[k].Some?)
          && r.value == SortById(Received(replies[..|windows|])))
    && (r == Failure(OutOfReplies) <==> LeadingFull(replies) == |replies|)
    && (r == Failure(OutOfReplies) ==> |windows| == |replies|)
    && (r.Failure? && r.error.NoData? ==>
          r.error.fetch == |windows| - 1 && replies[r.error.fetch].None?)
  }

  lemma ExitEmpty(start: string, end: string, replies: seq<Option<seq<Alarm>>>)
    requires |replies| == 0
    ensures Settles(start, end, replies, [], Failure(OutOfReplies))
  {
  }

  lemma ExitNoData(start: string, end: string, replies: seq<Option<seq<Alarm>>>, windows: seq<Window>, k: nat)
    requires k < |replies| && replies[k].None?
    requires Chained(start, end, windows, replies) && |windows| == k + 1
    ensures Settles(start, end, replies, windows, Failure(NoData(k)))
  {
    LeadingFullStop(replies, k, windows, start, end);
  }

  lemma ExitFull(start: string, end: string, replies: seq<Option<seq<Alarm>>>, windows: seq<Window>)
    requires Chained(start, end, windows, replies) && |windows| == |replies| > 0
    requires Full(replies[|replies| - 1])
    ensures Settles(start, end, replies, windows, Failure(OutOfReplies))
  {
    LeadingFullAll(replies, windows, start, end);
  }

  lemma ExitDone(start: string, end: string, replies: seq<Option<seq<Alarm>>>, windows: seq<Window>, k: nat)
    requires k < |replies| && replies[k].Some? && !Full(replies[k])
    requires Chained(start, end, windows, replies) && |windows| == k + 1
    requires forall j :: 0 <= j < k ==> replies[j].Some?
    ensures Settles(start, end, replies, windows, Success(SortById(Received(replies[..k + 1]))))
  {
    LeadingFullStop(replies, k, windows, start, end);
  }


  /** Once every page before `k` was full and page `k` is not, `k` is the
      number of leading full pages. */
  lemma LeadingFullStop(rs: seq<Option<seq<Alarm>>>, k: nat, windows: seq<Window>, start: string, end: string)
    requires k < |rs| && !Full(rs[k])
    requires Chained(start, end, windows, rs) && |windows| == k + 1
    ensures LeadingFull(rs) == k
  {
    LeadingFullAt(rs, k);
  }

  lemma {:induction false} LeadingFullAt(rs: seq<Option<seq<Alarm>>>, k: nat)
    requires k < |rs| && !Full(rs[k])
    requires forall j :: 0 <= j < k ==> Full(rs[j])
    ensures LeadingFull(rs) == k
    decreases k
  {
    if k > 0 {
      LeadingFullAt(rs[1..], k - 1);
    }
  }

  /** Full pages up to the end of the script. */
  lemma LeadingFullAll(rs: seq<Option<seq<Alarm>>>, windows: seq<Window>, start: string, end: string)
    requires Chained(start, end, windows, rs) && |windows| == |rs| > 0 && Full(rs[|rs| - 1])
    ensures LeadingFull(rs) == |rs|
  {
    forall j | 0 <= j < |rs|
      ensures Full(rs[j])
    {
      if j < |rs| - 1 {
        ChainedFull(start, end, windows, rs, j);
      }
    }
    LeadingFullEvery(rs);
  }

  /** Every page but the last one fetched was full. */
  lemma ChainedFull(start: string, end: string, windows: seq<Window>, replies: seq<Option<seq<Alarm>>>, j: int)
    requires Chained(start, end, windows, replies) && 0 <= j < |windows| - 1
    ensures Full(replies[j])
  {
  }

  lemma {:induction false} LeadingFullEvery(rs: seq<Option<seq<Alarm>>>)
    requires forall j :: 0 <= j < |rs| ==> Full(rs[j])
    ensures LeadingFull(rs) == |rs|
    decreases |rs|
  {
    if |rs| > 0 {
      LeadingFullEvery(rs[1..]);
    }
  }

  /** Pages of 500, 500 and 237 alarms: three fetches, and every alarm of the
      three pages in the result. */
  lemma ThreePages(a: seq<Alarm>, b: seq<Alarm>, c: seq<Alarm>)
    requires |a| == PageCap && |b| == PageCap && |c| == 237
    ensures LeadingFull([Some(a), Some(b), Some(c)]) + 1 == 3
    ensures |SortById(Received([Some(a), Some(b), Some(c)]))| == 1237
  {
    var rs := [Some(a), Some(b), Some(c)];
    assert rs[1..] == [Some(b), Some(c)] && rs[1..][1..] == [Some(c)];
    assert LeadingFull([Some(c)]) == 0;
    assert LeadingFull(rs[1..]) == 1;
    assert rs[..2] == [Some(a), Some(b)] && rs[..2][..1] == [Some(a)] && [Some(a)][..0] == [];
    assert Received([Some(a)]) == a;
    assert Received(rs[..2]) == a + b;
    assert Received(rs) == a + b + c;
  }

  /** A first page below the cap ends the export after one fetch. */
  lemma ShortFirstPage(a: seq<Alarm>, rest: seq<Option<seq<Alarm>>>)
    requires |a| < PageCap
    ensures LeadingFull([Some(a)] + rest) == 0
  {
  }

  /** The exported list is sorted by id, holds every received alarm exactly as
      often as it was received, and keeps alarms of equal id in arrival order. */
  lemma ExportOrder(rs: seq<Option<seq<Alarm>>>, v: int)
    ensures SortedById(SortById(Received(rs)))
    ensures multiset(SortById(Received(rs))) == multiset(Received(rs))
    ensures WithId(SortById(Received(rs)), v) == WithId(Received(rs), v)
  {
    SortByIdSorted(Received(rs));
    SortByIdStable(Received(rs), v);
  }
}
