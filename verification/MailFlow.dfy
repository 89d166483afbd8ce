/** Accepted recipients from deliver_mail (src/smtp.rs) through the queue worker (src/queue.rs). */
module MailFlow {
  import opened Arith
  import opened Results
  import opened Text
  import opened QueueFile
  import opened Retry
  import opened Delivery

  datatype File = File(stem: string, content: string)

  /** How this attempt reaches the recipients: by domain, or all through a smarthost. */
  datatype Route =
    | Direct(domainOf: string -> string, answers: string -> Answer)
    | Smarthost(answer: Answer)
  {
    function FateOf(): string -> Answer {
      match this
      case Direct(domainOf, answers) => DirectFate(domainOf, answers)
      case Smarthost(answer) => SharedFate(answer)
    }
  }

  datatype DeliverError = StoreFailed | EnqueueFailed | NoRecipients

  function ScheduleOf(m: QueueMessage): Schedule {
    Schedule(m.retryCount, m.nextAttempt, m.created)
  }

  /** One recipient of one transaction. */
  datatype Booked = Booked(id: string, address: string)

  /** The recipients of a transaction, each as often as it occurs. */
  function Tagged(id: string, rs: seq<string>): multiset<Booked> {
    if rs == [] then multiset{} else Tagged(id, rs[..|rs| - 1]) + multiset{Booked(id, rs[|rs| - 1])}
  }

  lemma {:induction false} TaggedCount(id: string, rs: seq<string>, k: Booked)
    ensures Tagged(id, rs)[k] == if k.id == id then multiset(rs)[k.address] else 0
    decreases |rs|
  {
    if rs == [] {
    } else {
      var n := |rs| - 1;
      TaggedCount(id, rs[..n], k);
      MultisetSnoc(rs[..n], rs[n]);
      assert rs == rs[..n] + [rs[n]];
    }
  }

  /** Tagging respects sums. */
  lemma TaggedSum(id: string, all: seq<string>, a: seq<string>, b: seq<string>, c: seq<string>)
    requires multiset(all) == multiset(a) + multiset(b) + multiset(c)
    ensures Tagged(id, all) == Tagged(id, a) + Tagged(id, b) + Tagged(id, c)
  {
    hide Tagged;
    forall k ensures Tagged(id, all)[k] == (Tagged(id, a) + Tagged(id, b) + Tagged(id, c))[k] {
      TaggedCount(id, all, k);
      TaggedCount(id, a, k);
      TaggedCount(id, b, k);
      TaggedCount(id, c, k);
    }
  }

  /** The addresses in a queue file; none if it does not load. */
  function Addresses(f: File): seq<string> {
    var m := Loaded(f.content, f.stem);
    if m.Ok? then m.value.recipients else []
  }

  /** The recipients a queue file stands for. */
  function Held(f: File): multiset<Booked> {
    Tagged(f.stem, Addresses(f))
  }

  function Pending(files: seq<File>): multiset<Booked> {
    if files == [] then multiset{} else Pending(files[..|files| - 1]) + Held(files[|files| - 1])
  }

  lemma PendingAppend(files: seq<File>, f: File)
    ensures Pending(files + [f]) == Pending(files) + Held(f)
  {
    assert (files + [f])[..|files|] == files;
  }

  // ----- delivery attempts of a transaction -----

  /** The file is due for an attempt. */
  predicate Due(f: File, now: nat) {
    var m := Loaded(f.content, f.stem);
    m.Ok? && Decide(ScheduleOf(m.value), now) == Attempt
  }

  /** Attempts a scan makes for the files of one transaction. */
  function AttemptsOf(files: seq<File>, now: nat, id: string): nat {
    if files == [] then 0 else
      var f := files[|files| - 1];
      AttemptsOf(files[..|files| - 1], now, id) + if f.stem == id && Due(f, now) then 1 else 0
  }

  /** A scan of the queue: the files it found, and its clock. */
  datatype ScanRecord = ScanRecord(files: seq<File>, now: nat)

  /** Attempts for one transaction over all scans. */
  function TotalAttempts(scans: seq<ScanRecord>, id: string): nat {
    if scans == [] then 0 else
      var s := scans[|scans| - 1];
      TotalAttempts(scans[..|scans| - 1], id) + AttemptsOf(s.files, s.now, id)
  }

  /** What the schedule still allows a file. */
  function AttemptsLeft(f: File): (n: nat)
    ensures n <= 10
  {
    var m := Loaded(f.content, f.stem);
    if m.Ok? && m.value.retryCount < 10 then 10 - m.value.retryCount else 0
  }

  function LeftOf(files: seq<File>, id: string): nat {
    if files == [] then 0 else
      var f := files[|files| - 1];
      LeftOf(files[..|files| - 1], id) + if f.stem == id then AttemptsLeft(f) else 0
  }

  lemma LeftAppend(files: seq<File>, f: File, id: string)
    ensures LeftOf(files + [f], id) == LeftOf(files, id) + if f.stem == id then AttemptsLeft(f) else 0
  {
    hide AttemptsLeft;
    assert (files + [f])[..|files|] == files;
  }

  /** A file is well named, and a message in it is on schedule. */
  predicate FileOk(f: File) {
    f.stem != [] && CleanField(f.stem)
    && var m := Loaded(f.content, f.stem);
       m.Ok? ==> OnSchedule(ScheduleOf(m.value)) && m.value.created + MAX_AGE <= MAX_U64
  }

  predicate FilesOk(files: seq<File>) {
    forall i :: 0 <= i < |files| ==> FileOk(files[i])
  }

  /** What becomes of a file: left alone, rewritten with a message, or removed. */
  datatype FileFate = Untouched | Rewritten(message: QueueMessage) | Removed

  /** The books of one visit to a file: what the network took, what was bounced, what stays. */
  datatype Visit = Visit(fate: FileFate, sent: seq<string>, bounced: seq<string>)

  /** The message kept after a temporary failure: same but for recipients and schedule. */
  predicate Retained(m: QueueMessage, now: nat, kept: QueueMessage) {
    kept == m.(recipients := kept.recipients, retryCount := m.retryCount + 1,
               nextAttempt := now + BackoffSecs(m.retryCount))
  }

  /** An attempt: accepted ones are sent, hopeless ones bounced, the others kept until the message is too old. */
  ghost predicate AttemptSpec(m: QueueMessage, now: nat, fate: string -> Answer, v: Visit) {
    var later, never := Fated(m.recipients, fate, Temporary), Fated(m.recipients, fate, Permanent);
    && multiset(v.sent) == Fated(m.recipients, fate, Accepted)
    && if later == multiset{} then v.fate == Removed && multiset(v.bounced) == never
       else if GivesUp(ScheduleOf(m), now) then v.fate == Removed && multiset(v.bounced) == never + later
       else multiset(v.bounced) == never && v.fate.Rewritten?
            && Retained(m, now, v.fate.message) && multiset(v.fate.message.recipients) == later
  }

  /** What a visit does, by the file's schedule and the recipients' fates. */
  ghost predicate VisitSpec(f: File, now: nat, fate: string -> Answer, v: Visit) {
    var loaded := Loaded(f.content, f.stem);
    if loaded.Err? then v == Visit(Untouched, [], [])
    else
      match Decide(ScheduleOf(loaded.value), now)
      case Skip => v == Visit(Untouched, [], [])
      case Expire => v == Visit(Removed, [], loaded.value.recipients)
      case Attempt => AttemptSpec(loaded.value, now, fate, v)
  }

  /** The recipients a visit leaves in the file. */
  function KeptBy(v: Visit): multiset<string> {
    if v.fate.Rewritten? then multiset(v.fate.message.recipients) else multiset{}
  }

  /** How the network answers for a recipient: by domain, where none is a permanent failure, or all alike. */
  function AnswerFor(route: Route, r: string): Answer {
    match route
    case Direct(domainOf, answers) => if domainOf(r) == "" then Permanent else answers(domainOf(r))
    case Smarthost(answer) => answer
  }

  /** A visit that attempts: what was accepted is sent, what failed for good is bounced, and what failed for now stays
      for the next attempt, or is bounced too when that would come a day after the message or later. */
  lemma AttemptMeans(f: File, now: nat, route: Route, v: Visit, m: QueueMessage, r: string)
    requires Loaded(f.content, f.stem) == Ok(m) && VisitSpec(f, now, route.FateOf(), v)
    requires m.nextAttempt <= now < m.created + 86400
    ensures var n := multiset(m.recipients)[r];
            var late := now + BackoffSecs(m.retryCount) >= m.created + 86400;
            && multiset(v.sent)[r] == (if AnswerFor(route, r) == Accepted then n else 0)
            && multiset(v.bounced)[r]
               == (if AnswerFor(route, r) == Permanent || (AnswerFor(route, r) == Temporary && late) then n else 0)
            && KeptBy(v)[r] == (if AnswerFor(route, r) == Temporary && !late then n else 0)
    ensures v.fate.Rewritten? ==>
              v.fate.message == m.(recipients := v.fate.message.recipients, retryCount := m.retryCount + 1,
                                   nextAttempt := now + BackoffSecs(m.retryCount))
    ensures v.fate == Removed || (v.fate.Rewritten? && v.fate.message.recipients != [])
  {
    hide Loaded, Fated, BackoffSecs;
    var fate := route.FateOf();
    assert fate(r) == AnswerFor(route, r);
    FatedCount(m.recipients, fate, Accepted, r);
    FatedCount(m.recipients, fate, Temporary, r);
    FatedCount(m.recipients, fate, Permanent, r);
  }

  /** A visit that does not: before its time a file is left alone, and a day after its making it is bounced whole. */
  lemma NoAttemptMeans(f: File, now: nat, route: Route, v: Visit)
    requires VisitSpec(f, now, route.FateOf(), v)
    ensures var loaded := Loaded(f.content, f.stem);
            if loaded.Err? || loaded.value.nextAttempt > now then v == Visit(Untouched, [], [])
            else now >= loaded.value.created + 86400 ==> v == Visit(Removed, [], loaded.value.recipients)
  {
    hide Loaded, Fated, BackoffSecs;
  }

  method VisitFile(f: File, now: nat, route: Route) returns (v: Visit)
    ensures VisitSpec(f, now, route.FateOf(), v)
  {
    var loaded := LoadMessage(f.content, f.stem);
    if loaded.Err? { return Visit(Untouched, [], []); }
    var m := loaded.value;
    if m.nextAttempt > now { return Visit(Untouched, [], []); }
    if SaturatingSub(now, m.created) >= MAX_AGE { return Visit(Removed, [], m.recipients); }
    v := AttemptFile(m, now, route);
  }

  /** The attempt and the bookkeeping after it. */
  method AttemptFile(m: QueueMessage, now: nat, route: Route) returns (v: Visit)
    ensures AttemptSpec(m, now, route.FateOf(), v)
  {
    hide Fated, AttemptResult;
    ghost var fate := route.FateOf();
    var result, sent, bounced := DeliverBy(route, m.recipients);
    AttemptSums(result, m.recipients, sent, bounced, fate);
    match result
    case Success => v := Visit(Removed, sent, bounced);
    case PermFail => v := Visit(Removed, [], m.recipients);
    case TempFail(remaining) =>
      var nextAttempt := now + BackoffSecs(m.retryCount);
      var updated := if remaining != [] then m.(recipients := remaining) else m;
      if SaturatingSub(nextAttempt, m.created) >= MAX_AGE || SaturatingSub(now, m.created) >= MAX_AGE {
        MultisetConcat(bounced, updated.recipients);
        v := Visit(Removed, sent, bounced + updated.recipients);
      } else {
        var kept := updated.(retryCount := m.retryCount + 1, nextAttempt := nextAttempt);
        v := Visit(Rewritten(kept), sent, bounced);
      }
  }

  lemma MultisetConcat(a: seq<string>, b: seq<string>)
    ensures multiset(a + b) == multiset(a) + multiset(b)
  {
  }

  method DeliverBy(route: Route, rs: seq<string>)
    returns (result: DeliverResult, sent: seq<string>, bounced: seq<string>)
    ensures AttemptResult(result, rs, sent, bounced, route.FateOf())
  {
    match route
    case Direct(domainOf, answers) => result, sent, bounced := DeliverDirect(rs, domainOf, answers);
    case Smarthost(answer) => result, sent, bounced := DeliverViaSmarthost(rs, answer);
  }

  lemma AttemptSums(result: DeliverResult, rs: seq<string>, sent: seq<string>, bounced: seq<string>,
        fate: string -> Answer)
    requires AttemptResult(result, rs, sent, bounced, fate)
    ensures result == PermFail ==>
              Fated(rs, fate, Permanent) == multiset(rs)
              && Fated(rs, fate, Accepted) == multiset{} && Fated(rs, fate, Temporary) == multiset{}
    ensures result != PermFail ==>
              multiset(sent) == Fated(rs, fate, Accepted) && multiset(bounced) == Fated(rs, fate, Permanent)
    ensures result == Success ==> Fated(rs, fate, Temporary) == multiset{}
    ensures result.TempFail? ==> result.remaining != []
    ensures result.TempFail? ==> multiset(result.remaining) == Fated(rs, fate, Temporary) != multiset{}
  {
    AttemptConserves(result, rs, sent, bounced, fate);
    FatesPartition(rs, fate);
    hide Fated;
    OnlyThird(Fated(rs, fate, Accepted), Fated(rs, fate, Temporary), Fated(rs, fate, Permanent));
  }

  /** The file after a visit; None when it is gone. */
  function FileAfter(f: File, fate: FileFate): Option<File> {
    match fate
    case Untouched => Some(f)
    case Rewritten(m) => Some(File(f.stem, Serialize(m)))
    case Removed => None
  }

  function AddressesAfter(f: File, fate: FileFate): seq<string> {
    var g := FileAfter(f, fate);
    if g == None then [] else Addresses(g.value)
  }

  function HeldAfter(f: File, fate: FileFate): multiset<Booked> {
    var g := FileAfter(f, fate);
    if g == None then multiset{} else Held(g.value)
  }

  /** One visit conserves the file's recipients and keeps the schedule invariant. */
  lemma VisitConserves(f: File, now: nat, fate: string -> Answer, v: Visit)
    requires FileOk(f) && VisitSpec(f, now, fate, v)
    ensures Held(f) == Tagged(f.stem, v.sent) + Tagged(f.stem, v.bounced) + HeldAfter(f, v.fate)
    ensures FileAfter(f, v.fate).Some? ==> FileOk(FileAfter(f, v.fate).value)
  {
    AddressesConserved(f, now, fate, v);
    hide Addresses, VisitSpec, FileOk;
    TaggedSum(f.stem, Addresses(f), v.sent, v.bounced, AddressesAfter(f, v.fate));
  }

  lemma AddressesConserved(f: File, now: nat, fate: string -> Answer, v: Visit)
    requires FileOk(f) && VisitSpec(f, now, fate, v)
    ensures multiset(Addresses(f)) == multiset(v.sent) + multiset(v.bounced) + multiset(AddressesAfter(f, v.fate))
    ensures FileAfter(f, v.fate).Some? ==> FileOk(FileAfter(f, v.fate).value)
  {
    var loaded := Loaded(f.content, f.stem);
    if loaded.Ok? && Decide(ScheduleOf(loaded.value), now) == Attempt {
      LoadedIsClean(f.content, f.stem);
      AttemptBooks(loaded.value, f, now, fate, v);
    }
  }

  lemma AttemptBooks(m: QueueMessage, f: File, now: nat, fate: string -> Answer, v: Visit)
    requires CleanAddresses(m.recipients) && FitsFile(m) && CleanField(f.stem) && f.stem != []
    requires OnSchedule(ScheduleOf(m)) && m.created + MAX_AGE <= MAX_U64
    requires Decide(ScheduleOf(m), now) == Attempt && AttemptSpec(m, now, fate, v)
    ensures multiset(m.recipients) == multiset(v.sent) + multiset(v.bounced) + multiset(AddressesAfter(f, v.fate))
    ensures v.fate != Untouched
    ensures v.fate.Rewritten? ==> FileOk(File(f.stem, Serialize(v.fate.message)))
  {
    hide Fated, Serialize, Addresses, CleanField, FitsFile, CleanAddresses, FileOk;
    var later, never := Fated(m.recipients, fate, Temporary), Fated(m.recipients, fate, Permanent);
    FatesPartition(m.recipients, fate);
    if v.fate.Rewritten? { RetainedReads(m, now, v.fate.message, f.stem, later); }
    Regroup(multiset(v.sent), never, later);
  }

  lemma Regroup(sent: multiset<string>, never: multiset<string>, later: multiset<string>)
    ensures sent + later + never == sent + never + later
    ensures sent + later + never == sent + (never + later) + multiset{}
    ensures later == multiset{} ==> sent + later + never == sent + never + multiset{}
  {
  }

  /** A rewritten file reads back as the failed part of the message, on schedule. */
  lemma RetainedReads(m: QueueMessage, now: nat, kept: QueueMessage, stem: string, later: multiset<string>)
    requires CleanAddresses(m.recipients) && FitsFile(m) && CleanField(stem) && stem != []
    requires OnSchedule(ScheduleOf(m)) && m.created + MAX_AGE <= MAX_U64
    requires Decide(ScheduleOf(m), now) == Attempt && !GivesUp(ScheduleOf(m), now)
    requires Retained(m, now, kept) && multiset(kept.recipients) == later <= multiset(m.recipients)
    ensures FileOk(File(stem, Serialize(kept))) && multiset(Addresses(File(stem, Serialize(kept)))) == later
  {
    SubsetClean(kept.recipients, m.recipients);
    ScheduleKept(ScheduleOf(m), now);
    AtMostNineRetries(ScheduleOf(kept));
    hide CleanAddresses, CleanField, Serialize, Loaded;
    FileRoundTrip(kept, stem);
  }

  lemma SubsetClean(rest: seq<string>, rs: seq<string>)
    requires CleanAddresses(rs) && multiset(rest) <= multiset(rs)
    ensures CleanAddresses(rest)
  {
    forall i | 0 <= i < |rest| ensures CleanAddress(rest[i]) {
      assert rest[i] in multiset(rest);
      assert rest[i] in multiset(rs);
      var j :| 0 <= j < |rs| && rs[j] == rest[i];
    }
  }

  // ----- a sweep of the whole queue -----

  function Survivors(files: seq<File>, visits: seq<Visit>): seq<File>
    requires |visits| == |files|
  {
    if files == [] then []
    else
      var n := |files| - 1;
      var g := FileAfter(files[n], visits[n].fate);
      Survivors(files[..n], visits[..n]) + if g == None then [] else [g.value]
  }

  function SentBy(files: seq<File>, visits: seq<Visit>): multiset<Booked>
    requires |visits| == |files|
  {
    if files == [] then multiset{} else
      var n := |files| - 1;
      SentBy(files[..n], visits[..n]) + Tagged(files[n].stem, visits[n].sent)
  }

  function BouncedBy(files: seq<File>, visits: seq<Visit>): multiset<Booked>
    requires |visits| == |files|
  {
    if files == [] then multiset{} else
      var n := |files| - 1;
      BouncedBy(files[..n], visits[..n]) + Tagged(files[n].stem, visits[n].bounced)
  }

  /** Every file is visited once, in order. */
  ghost predicate SweepSpec(files: seq<File>, now: nat, routes: string -> Route, visits: seq<Visit>) {
    |visits| == |files|
    && forall i :: 0 <= i < |files| ==> VisitSpec(files[i], now, routes(files[i].stem).FateOf(), visits[i])
  }

  /** A sweep only moves recipients: out of the queue, into the sent or the bounced ones. */
  lemma {:induction false} SweepConserves(files: seq<File>, now: nat, routes: string -> Route, visits: seq<Visit>)
    requires FilesOk(files) && SweepSpec(files, now, routes, visits)
    ensures Pending(files) == Pending(Survivors(files, visits)) + SentBy(files, visits) + BouncedBy(files, visits)
    ensures FilesOk(Survivors(files, visits))
    decreases |files|
  {
    if files == [] {
    } else {
      var n := |files| - 1;
      SweepPrefix(files, now, routes, visits);
      SweepConserves(files[..n], now, routes, visits[..n]);
      SweepStep(files, visits, now, routes(files[n].stem).FateOf());
    }
  }

  lemma SweepPrefix(files: seq<File>, now: nat, routes: string -> Route, visits: seq<Visit>)
    requires FilesOk(files) && SweepSpec(files, now, routes, visits) && files != []
    ensures var n := |files| - 1;
            FilesOk(files[..n]) && SweepSpec(files[..n], now, routes, visits[..n])
            && VisitSpec(files[n], now, routes(files[n].stem).FateOf(), visits[n])
  {
    hide VisitSpec, FileOk;
  }

  lemma SweepStep(files: seq<File>, visits: seq<Visit>, now: nat, fate: string -> Answer)
    requires |visits| == |files| > 0
    requires var n := |files| - 1;
             FileOk(files[n]) && VisitSpec(files[n], now, fate, visits[n])
                   && FilesOk(Survivors(files[..n], visits[..n]))
             && Pending(files[..n]) == Pending(Survivors(files[..n], visits[..n])) + SentBy(files[..n], visits[..n])
                                       + BouncedBy(files[..n], visits[..n])
    ensures Pending(files) == Pending(Survivors(files, visits)) + SentBy(files, visits) + BouncedBy(files, visits)
    ensures FilesOk(Survivors(files, visits))
  {
    var n := |files| - 1;
    var f, v := files[n], visits[n];
    var rest := Survivors(files[..n], visits[..n]);
    LastVisit(files, visits);
    hide VisitSpec, Held, FileOk, FilesOk, Survivors, SentBy, BouncedBy, Pending, FileAfter, Tagged;
    VisitConserves(f, now, fate, v);
    KeepFile(rest, FileAfter(f, v.fate));
    SumStep(Pending(rest), SentBy(files[..n], visits[..n]), BouncedBy(files[..n], visits[..n]),
            Tagged(f.stem, v.sent), Tagged(f.stem, v.bounced), HeldAfter(f, v.fate));
  }

  lemma LastVisit(files: seq<File>, visits: seq<Visit>)
    requires |visits| == |files| > 0
    ensures var n := |files| - 1;
            var g := FileAfter(files[n], visits[n].fate);
            Survivors(files, visits) == Survivors(files[..n], visits[..n]) + (if g == None then [] else [g.value])
            && SentBy(files, visits) == SentBy(files[..n], visits[..n]) + Tagged(files[n].stem, visits[n].sent)
            && BouncedBy(files, visits) == BouncedBy(files[..n], visits[..n]) + Tagged(files[n].stem, visits[n].bounced)
            && Pending(files) == Pending(files[..n]) + Held(files[n])
  {
    hide Held, FileAfter, Tagged;
  }

  lemma KeepFile(rest: seq<File>, g: Option<File>)
    requires FilesOk(rest) && (g.Some? ==> FileOk(g.value))
    ensures var kept := rest + (if g == None then [] else [g.value]);
            FilesOk(kept) && Pending(kept) == Pending(rest) + if g == None then multiset{} else Held(g.value)
  {
    hide FileOk, Held;
    if g.Some? { PendingAppend(rest, g.value); } else { assert rest + [] == rest; }
  }

  lemma SumStep<T>(p: multiset<T>, s: multiset<T>, b: multiset<T>, s1: multiset<T>, b1: multiset<T>, p1: multiset<T>)
    ensures (p + s + b) + (s1 + b1 + p1) == (p + p1) + (s + s1) + (b + b1)
    ensures p + multiset{} == p
  {
  }

  /** An attempt uses up one of the attempts left; nothing gives any back. */
  lemma VisitAttempt(f: File, now: nat, fate: string -> Answer, v: Visit)
    requires FileOk(f) && VisitSpec(f, now, fate, v)
    ensures var g := FileAfter(f, v.fate);
            (g.Some? ==> g.value.stem == f.stem)
            && (if Due(f, now) then 1 else 0) + (if g == None then 0 else AttemptsLeft(g.value)) <= AttemptsLeft(f)
  {
    if Due(f, now) {
      LoadedIsClean(f.content, f.stem);
      AttemptSpent(Loaded(f.content, f.stem).value, f, now, fate, v);
    }
  }

  lemma AttemptSpent(m: QueueMessage, f: File, now: nat, fate: string -> Answer, v: Visit)
    requires CleanAddresses(m.recipients) && FitsFile(m) && CleanField(f.stem) && f.stem != []
    requires OnSchedule(ScheduleOf(m)) && m.created + MAX_AGE <= MAX_U64
    requires Decide(ScheduleOf(m), now) == Attempt && AttemptSpec(m, now, fate, v)
    ensures m.retryCount <= 9 && v.fate != Untouched
    ensures v.fate.Rewritten? ==> AttemptsLeft(File(f.stem, Serialize(v.fate.message))) <= 9 - m.retryCount
  {
    hide Fated, Serialize, CleanField, FitsFile, CleanAddresses, Loaded, FileOk;
    AtMostNineRetries(ScheduleOf(m));
    if v.fate.Rewritten? {
      FatesPartition(m.recipients, fate);
      var kept := v.fate.message;
      RetainedReads(m, now, kept, f.stem, multiset(kept.recipients));
      RetainedLoads(m, now, kept, f.stem);
    }
  }

  lemma RetainedLoads(m: QueueMessage, now: nat, kept: QueueMessage, stem: string)
    requires CleanAddresses(m.recipients) && FitsFile(m)
    requires OnSchedule(ScheduleOf(m)) && m.created + MAX_AGE <= MAX_U64
    requires Decide(ScheduleOf(m), now) == Attempt && !GivesUp(ScheduleOf(m), now)
    requires Retained(m, now, kept) && multiset(kept.recipients) <= multiset(m.recipients)
    ensures Loaded(Serialize(kept), stem) == Ok(kept)
  {
    SubsetClean(kept.recipients, m.recipients);
    ScheduleKept(ScheduleOf(m), now);
    AtMostNineRetries(ScheduleOf(kept));
    hide CleanAddresses, CleanField, Serialize, Loaded;
    FileRoundTrip(kept, stem);
  }

  /** A scan's attempts and what it leaves are covered by what was left before. */
  lemma {:induction false} SweepAttempts(files: seq<File>, now: nat, routes: string -> Route, visits: seq<Visit>,
        id: string)
    requires FilesOk(files) && SweepSpec(files, now, routes, visits)
    ensures AttemptsOf(files, now, id) + LeftOf(Survivors(files, visits), id) <= LeftOf(files, id)
    decreases |files|
  {
    if files == [] {
    } else {
      var n := |files| - 1;
      SweepPrefix(files, now, routes, visits);
      SweepAttempts(files[..n], now, routes, visits[..n], id);
      LastVisit(files, visits);
      var f, v := files[n], visits[n];
      assert FileOk(f);
      hide FileOk, FilesOk, VisitSpec, SweepSpec, Survivors, FileAfter, Due, AttemptsLeft;
      VisitAttempt(f, now, routes(f.stem).FateOf(), v);
      var rest, g := Survivors(files[..n], visits[..n]), FileAfter(f, v.fate);
      if g.Some? { LeftAppend(rest, g.value, id); } else { assert rest + [] == rest; }
    }
  }

  /** Recipients with a mailbox here, and those without. */
  function Local(rcpts: seq<string>, resolve: string -> Option<string>): seq<string> {
    if rcpts == [] then []
    else Local(rcpts[..|rcpts| - 1], resolve)
         + if resolve(rcpts[|rcpts| - 1]).Some? then [rcpts[|rcpts| - 1]] else []
  }

  function Remote(rcpts: seq<string>, resolve: string -> Option<string>): seq<string> {
    if rcpts == [] then []
    else Remote(rcpts[..|rcpts| - 1], resolve)
         + if resolve(rcpts[|rcpts| - 1]).Some? then [] else [rcpts[|rcpts| - 1]]
  }

  lemma {:induction false} LocalAndRemote(rcpts: seq<string>, resolve: string -> Option<string>)
    ensures multiset(rcpts) == multiset(Local(rcpts, resolve)) + multiset(Remote(rcpts, resolve))
    decreases |rcpts|
  {
    if rcpts == [] {
    } else {
      var seen, r := rcpts[..|rcpts| - 1], rcpts[|rcpts| - 1];
      LocalAndRemote(seen, resolve);
      MultisetSnoc(seen, r);
      assert rcpts == seen + [r];
      MultisetSnoc(Remote(seen, resolve), r);
      MultisetSnoc(Local(seen, resolve), r);
      MultisetAssoc(multiset(Local(seen, resolve)), multiset(Remote(seen, resolve)), multiset{r});
      SwapLast(multiset(Local(seen, resolve)), multiset(Remote(seen, resolve)), multiset{r});
    }
  }

  lemma {:induction false} NoRemote(rcpts: seq<string>, resolve: string -> Option<string>)
    ensures Remote(rcpts, resolve) == [] <==> forall i :: 0 <= i < |rcpts| ==> resolve(rcpts[i]).Some?
    decreases |rcpts|
  {
    if rcpts == [] {
    } else {
      NoRemote(rcpts[..|rcpts| - 1], resolve);
    }
  }

  lemma {:induction false} RemoteOneLines(rcpts: seq<string>, resolve: string -> Option<string>)
    requires OneLines(rcpts)
    ensures OneLines(Remote(rcpts, resolve))
    decreases |rcpts|
  {
    hide OneLine;
    if rcpts == [] {
    } else {
      RemoteOneLines(rcpts[..|rcpts| - 1], resolve);
    }
  }

  /** When every accepted recipient of a transaction stays on the books. */
  predicate Conserving(isSubmission: bool, rcpts: seq<string>, resolve: string -> Option<string>) {
    if isSubmission then CleanAddresses(Remote(rcpts, resolve))
    else forall i :: 0 <= i < |rcpts| ==> resolve(rcpts[i]).Some?
  }

  function FreshMessage(stem: string, from: string, remote: seq<string>, now: nat, raw: string): QueueMessage {
    QueueMessage(stem, from, remote, 0, now, now, raw)
  }

  /** What a file written by enqueue loads as: the text and the time as given, the sender trimmed, and the recipients
      as a comma-joined list gives them back, which is the list given exactly when all addresses are clean. */
  lemma EnqueuedFile(stem: string, from: string, remote: seq<string>, now: nat, raw: string)
    requires stem != [] && CleanField(stem) && OneLine(from) && OneLines(remote) && now + MAX_AGE <= MAX_U64
    ensures var f := File(stem, Serialize(FreshMessage(stem, from, remote, now, raw)));
            Loaded(f.content, f.stem) == Ok(QueueMessage(stem, Trim(from), ReadBack(remote), 0, now, now, raw))
            && Addresses(f) == ReadBack(remote) && FileOk(f)
    ensures CleanAddresses(ReadBack(remote))
    ensures CleanAddresses(remote) <==> multiset(ReadBack(remote)) == multiset(remote)
  {
    var m := FreshMessage(stem, from, remote, now, raw);
    hide Serialize, Loaded, ReadBack, CleanAddresses, Trim;
    TrimOfTrimmed(stem);
    FileReads(m, stem);
    ScheduleKept(ScheduleOf(m), now);
    ReadBackIsClean(remote);
    if CleanAddresses(remote) { RecipientsReadBack(remote); }
    if multiset(ReadBack(remote)) == multiset(remote) { SubsetClean(remote, ReadBack(remote)); }
  }

  lemma SweepExtend(entries: seq<File>, i: nat, now: nat, routes: string -> Route, visits: seq<Visit>, v: Visit)
    requires i < |entries| && |visits| == i && SweepSpec(entries[..i], now, routes, visits)
    requires VisitSpec(entries[i], now, routes(entries[i].stem).FateOf(), v)
    ensures SweepSpec(entries[..i + 1], now, routes, visits + [v])
    ensures Survivors(entries[..i + 1], visits + [v])
         == Survivors(entries[..i], visits)
            + if FileAfter(entries[i], v.fate) == None then [] else [FileAfter(entries[i], v.fate).value]
    ensures SentBy(entries[..i + 1], visits + [v]) == SentBy(entries[..i], visits) + Tagged(entries[i].stem, v.sent)
    ensures BouncedBy(entries[..i + 1], visits + [v]) == BouncedBy(entries[..i], visits)
          + Tagged(entries[i].stem, v.bounced)
  {
    hide VisitSpec, FileAfter, Tagged;
    assert entries[..i + 1][..i] == entries[..i] && (visits + [v])[..i] == visits;
  }

  function QueuedAddresses(isSubmission: bool, rcpts: seq<string>, resolve: string -> Option<string>): seq<string> {
    if isSubmission then Remote(rcpts, resolve) else []
  }

  /** The queue file deliver_mail writes, if there is a remote recipient. */
  function QueuedFiles(isSubmission: bool, rcpts: seq<string>, resolve: string -> Option<string>,
                       stem: string, from: string, now: nat, raw: string): seq<File>
  {
    var remote := QueuedAddresses(isSubmission, rcpts, resolve);
    if remote == [] then [] else [File(stem, Serialize(FreshMessage(stem, from, remote, now, raw)))]
  }

  lemma QueuedOnce(isSubmission: bool, rcpts: seq<string>, resolve: string -> Option<string>,
                   stem: string, from: string, now: nat, raw: string)
    ensures var more := QueuedFiles(isSubmission, rcpts, resolve, stem, from, now, raw);
            more == [] || (|more| == 1 && more[0].stem == stem)
  {
    hide Serialize;
  }

  /** What the queue holds after deliver_mail. */
  lemma QueuedRecipients(isSubmission: bool, rcpts: seq<string>, resolve: string -> Option<string>,
                         stem: string, from: string, now: nat, raw: string, before: seq<File>)
    requires FilesOk(before) && stem != [] && CleanField(stem) && now + MAX_AGE <= MAX_U64
    requires isSubmission ==> OneLine(from) && OneLines(Remote(rcpts, resolve))
    ensures var after := before + QueuedFiles(isSubmission, rcpts, resolve, stem, from, now, raw);
            FilesOk(after)
            && Pending(after) == Pending(before) + Tagged(stem, ReadBack(QueuedAddresses(isSubmission, rcpts, resolve)))
    ensures CleanAddresses(ReadBack(QueuedAddresses(isSubmission, rcpts, resolve)))
  {
    hide Serialize, Addresses, CleanField, FileOk, OneLine, ReadBack;
    var remote := QueuedAddresses(isSubmission, rcpts, resolve);
    if remote == [] {
      RecipientsReadBack(remote);
      assert before + [] == before;
    } else {
      EnqueuedFile(stem, from, remote, now, raw);
      PendingAppend(before, File(stem, Serialize(FreshMessage(stem, from, remote, now, raw))));
    }
  }

  /** Stored copies and what the queue file gives back are the recipients exactly when the transaction conserves them.
      */
  lemma DeliveryBooks(isSubmission: bool, rcpts: seq<string>, resolve: string -> Option<string>)
    requires isSubmission ==> OneLines(Remote(rcpts, resolve))
    ensures multiset(rcpts) == multiset(Local(rcpts, resolve))
          + multiset(ReadBack(QueuedAddresses(isSubmission, rcpts, resolve)))
       <==> Conserving(isSubmission, rcpts, resolve)
  {
    hide CleanAddress, ReadBack;
    var remote := Remote(rcpts, resolve);
    var queued := ReadBack(QueuedAddresses(isSubmission, rcpts, resolve));
    LocalAndRemote(rcpts, resolve);
    NoRemote(rcpts, resolve);
    Cancel(multiset(Local(rcpts, resolve)), multiset(remote), multiset(queued));
    MultisetEmpty(remote);
    if isSubmission {
      ReadBackIsClean(remote);
      if CleanAddresses(remote) { RecipientsReadBack(remote); }
      if multiset(queued) == multiset(remote) { SubsetClean(remote, queued); }
    } else {
      RecipientsReadBack([]);
    }
  }

  lemma Cancel<T>(x: multiset<T>, a: multiset<T>, b: multiset<T>)
    ensures x + a == x + b <==> a == b
  {
    if x + a == x + b {
      forall k ensures a[k] == b[k] {
        assert (x + a)[k] == (x + b)[k];
      }
    }
  }

  /** The worker's loop over the queue files. */
  method Sweep(entries: seq<File>, now: nat, routes: string -> Route)
    returns (rest: seq<File>, sent: multiset<Booked>, bounced: multiset<Booked>, ghost visits: seq<Visit>)
    requires FilesOk(entries)
    ensures SweepSpec(entries, now, routes, visits)
    ensures rest == Survivors(entries, visits) && sent == SentBy(entries, visits) && bounced
          == BouncedBy(entries, visits)
    ensures FilesOk(rest) && Pending(entries) == Pending(rest) + sent + bounced
  {
    rest, sent, bounced, visits := [], multiset{}, multiset{}, [];
    for i := 0 to |entries|
      invariant |visits| == i && SweepSpec(entries[..i], now, routes, visits)
      invariant rest == Survivors(entries[..i], visits)
      invariant sent == SentBy(entries[..i], visits) && bounced == BouncedBy(entries[..i], visits)
    {
      hide SweepSpec, VisitSpec, Survivors, SentBy, BouncedBy, FilesOk;
      var f := entries[i];
      var v := VisitFile(f, now, routes(f.stem));
      SweepExtend(entries, i, now, routes, visits, v);
      var g := FileAfter(f, v.fate);
      rest := rest + if g == None then [] else [g.value];
      sent, bounced := sent + Tagged(f.stem, v.sent), bounced + Tagged(f.stem, v.bounced);
      visits := visits + [v];
    }
    assert entries[..|entries|] == entries;
    SweepConserves(entries, now, routes, visits);
  }

  /** A message in a mailbox folder. */
  datatype Copy = Copy(folder: string, from: string, raw: string)

  /** One copy for each local recipient, in order, in its mailbox or, for what arrives as junk, that mailbox's junk
      folder. */
  predicate CopiesFor(copies: seq<Copy>, local: seq<string>, resolve: string -> Option<string>, junk: bool,
                      from: string, raw: string)
  {
    |copies| == |local|
    && forall i :: 0 <= i < |local| ==>
         resolve(local[i]).Some?
         && copies[i] == Copy(resolve(local[i]).value + (if junk then "/.Junk" else ""), from, raw)
  }

  lemma NoCopies(resolve: string -> Option<string>, junk: bool, from: string, raw: string)
    ensures CopiesFor([], [], resolve, junk, from, raw)
  {
  }

  /** What a submission puts in the sender's own mailbox. */
  function SentCopies(isSubmission: bool, authUser: Option<string>, resolve: string -> Option<string>,
                      from: string, raw: string): seq<Copy>
  {
    if isSubmission && authUser.Some? && resolve(authUser.value).Some?
    then [Copy(resolve(authUser.value).value + "/.Sent", from, raw)] else []
  }

  /** deliver_mail's loop: local recipients are stored, the others of a submission collected. */
  method StoreLocal(isSubmission: bool, rcpts: seq<string>, resolve: string -> Option<string>, storeOk: nat -> bool,
                    junk: bool, from: string, raw: string)
    returns (ok: bool, local: seq<string>, remote: seq<string>, count: nat, copies: seq<Copy>)
    ensures CopiesFor(copies, local, resolve, junk && !isSubmission, from, raw)
    ensures ok ==> local == Local(rcpts, resolve) && remote == QueuedAddresses(isSubmission, rcpts, resolve)
    ensures !ok ==> exists i :: 0 <= i < |rcpts| && !storeOk(i) && local == Local(rcpts[..i], resolve)
    ensures count == |local|
  {
    ok, local, remote, count, copies := true, [], [], 0, [];
    assert rcpts[..0] == [];
    for i := 0 to |rcpts|
      invariant local == Local(rcpts[..i], resolve)
      invariant remote == QueuedAddresses(isSubmission, rcpts[..i], resolve)
      invariant ok && count == |local| && CopiesFor(copies, local, resolve, junk && !isSubmission, from, raw)
    {
      assert rcpts[..i + 1][..i] == rcpts[..i];
      if resolve(rcpts[i]).Some? {
        if !storeOk(i) {
          ok := false;
          return;
        }
        var mailbox := resolve(rcpts[i]).value;
        copies := copies + [Copy(if !isSubmission && junk then mailbox + "/.Junk" else mailbox, from, raw)];
        local := local + [rcpts[i]];
        count := count + 1;
      } else if isSubmission {
        remote := remote + [rcpts[i]];
      }
    }
    assert rcpts[..|rcpts|] == rcpts;
  }

  /** A transaction that deliver_mail answered with success. */
  datatype Entry = Entry(id: string, isSubmission: bool, from: string, rcpts: seq<string>, raw: string, at: nat,
                         resolve: string -> Option<string>)
  {
    predicate Conserved() {
      Conserving(isSubmission, rcpts, resolve)
    }
  }

  /** The files a transaction adds to the queue: one that loads with its text, sender, time and remote recipients, or
      none without remote recipients. */
  predicate Queues(more: seq<File>, e: Entry) {
    var remote := QueuedAddresses(e.isSubmission, e.rcpts, e.resolve);
    if remote == [] then more == []
    else |more| == 1 && more[0].stem == e.id
         && Loaded(more[0].content, e.id)
              == Ok(QueueMessage(e.id, Trim(e.from), ReadBack(remote), 0, e.at, e.at, e.raw))
  }

  lemma QueuedFileLoads(e: Entry)
    requires e.id != [] && CleanField(e.id) && e.at + MAX_AGE <= MAX_U64
    requires e.isSubmission ==> OneLine(e.from) && OneLines(Remote(e.rcpts, e.resolve))
    ensures Queues(QueuedFiles(e.isSubmission, e.rcpts, e.resolve, e.id, e.from, e.at, e.raw), e)
  {
    hide Serialize, FreshMessage, CleanField, OneLine, OneLines, Loaded, Trim, Remote, ReadBack;
    var remote := QueuedAddresses(e.isSubmission, e.rcpts, e.resolve);
    if remote != [] { EnqueuedFile(e.id, e.from, remote, e.at, e.raw); }
  }

  /** A queue file still carries its transaction: text, sender and time unchanged, recipients among those it was written
      with. */
  predicate Carries(f: File, e: Entry) {
    var m := Loaded(f.content, f.stem);
    f.stem == e.id && m.Ok? && m.value.id == e.id && m.value.raw == e.raw && m.value.sender == Trim(e.from)
    && m.value.created == e.at
    && multiset(m.value.recipients) <= multiset(ReadBack(QueuedAddresses(e.isSubmission, e.rcpts, e.resolve)))
  }

  ghost predicate CarriesOne(f: File, ledger: seq<Entry>) {
    exists e :: e in ledger && Carries(f, e)
  }

  /** Every file of the queue carries a transaction of the ledger. */
  ghost predicate Traced(files: seq<File>, ledger: seq<Entry>) {
    forall i :: 0 <= i < |files| ==> CarriesOne(files[i], ledger)
  }

  /** Whatever a visit leaves of a file, it carries the same transaction. */
  lemma VisitCarries(f: File, now: nat, fate: string -> Answer, v: Visit, e: Entry)
    requires FileOk(f) && VisitSpec(f, now, fate, v) && Carries(f, e)
    ensures FileAfter(f, v.fate).Some? ==> Carries(FileAfter(f, v.fate).value, e)
  {
    hide Serialize, Loaded, AttemptSpec, Carries, CleanField, OnSchedule, Decide, CleanAddresses, FitsFile;
    if v.fate.Rewritten? {
      LoadedIsClean(f.content, f.stem);
      RewrittenCarries(Loaded(f.content, f.stem).value, f, now, fate, v, e);
    }
  }

  lemma RewrittenCarries(m: QueueMessage, f: File, now: nat, fate: string -> Answer, v: Visit, e: Entry)
    requires CleanAddresses(m.recipients) && FitsFile(m) && v.fate.Rewritten?
    requires OnSchedule(ScheduleOf(m)) && m.created + MAX_AGE <= MAX_U64
    requires Decide(ScheduleOf(m), now) == Attempt && AttemptSpec(m, now, fate, v)
    requires Loaded(f.content, f.stem) == Ok(m) && Carries(f, e)
    ensures Carries(File(f.stem, Serialize(v.fate.message)), e)
  {
    hide Fated, Serialize, FitsFile, CleanAddresses, Loaded, ReadBack, QueuedAddresses, Trim;
    FatesPartition(m.recipients, fate);
    RetainedLoads(m, now, v.fate.message, f.stem);
  }

  /** Scans keep it. */
  lemma {:induction false} SweepTraced(files: seq<File>, now: nat, routes: string -> Route, visits: seq<Visit>,
        ledger: seq<Entry>)
    requires FilesOk(files) && SweepSpec(files, now, routes, visits) && Traced(files, ledger)
    ensures Traced(Survivors(files, visits), ledger)
    decreases |files|
  {
    hide FileOk, VisitSpec, FileAfter, CarriesOne;
    if files == [] {
    } else {
      var n := |files| - 1;
      var f, v := files[n], visits[n];
      assert FileOk(f) && CarriesOne(f, ledger);
      SweepPrefix(files, now, routes, visits);
      TracedPrefix(files, ledger);
      hide FilesOk, SweepSpec, Traced, Survivors;
      SweepTraced(files[..n], now, routes, visits[..n], ledger);
      LastVisit(files, visits);
      FileCarries(f, now, routes(f.stem).FateOf(), v, ledger);
      KeepTraced(Survivors(files[..n], visits[..n]), FileAfter(f, v.fate), ledger);
    }
  }

  lemma TracedPrefix(files: seq<File>, ledger: seq<Entry>)
    requires files != [] && Traced(files, ledger)
    ensures Traced(files[..|files| - 1], ledger)
  {
    hide CarriesOne;
  }

  lemma KeepTraced(rest: seq<File>, g: Option<File>, ledger: seq<Entry>)
    requires Traced(rest, ledger) && (g.Some? ==> CarriesOne(g.value, ledger))
    ensures Traced(rest + (if g == None then [] else [g.value]), ledger)
  {
    hide CarriesOne;
  }

  lemma FileCarries(f: File, now: nat, fate: string -> Answer, v: Visit, ledger: seq<Entry>)
    requires FileOk(f) && VisitSpec(f, now, fate, v) && CarriesOne(f, ledger)
    ensures FileAfter(f, v.fate).Some? ==> CarriesOne(FileAfter(f, v.fate).value, ledger)
  {
    hide FileOk, VisitSpec, FileAfter, Carries;
    var e :| e in ledger && Carries(f, e);
    VisitCarries(f, now, fate, v, e);
  }

  /** A new entry brings the file that carries it. */
  lemma TracedEntry(files: seq<File>, ledger: seq<Entry>, e: Entry, more: seq<File>)
    requires Traced(files, ledger) && Queues(more, e)
    ensures Traced(files + more, ledger + [e])
  {
    hide Loaded, Trim, ReadBack, QueuedAddresses;
    assert (ledger + [e])[|ledger|] == e;
    forall i | 0 <= i < |files + more| ensures CarriesOne((files + more)[i], ledger + [e]) {
      if i < |files| {
        assert CarriesOne(files[i], ledger);
        var x :| x in ledger && Carries(files[i], x);
        assert x in ledger + [e];
      } else {
        assert Carries((files + more)[i], e);
      }
    }
  }

  // ----- the books -----

  function AcceptedBy(ledger: seq<Entry>): multiset<Booked> {
    if ledger == [] then multiset{} else
      var n := |ledger| - 1;
      AcceptedBy(ledger[..n]) + Tagged(ledger[n].id, ledger[n].rcpts)
  }

  /** How many transactions carry an id. */
  function Uses(ledger: seq<Entry>, id: string): nat {
    if ledger == [] then 0 else
      var n := |ledger| - 1;
      Uses(ledger[..n], id) + if ledger[n].id == id then 1 else 0
  }

  lemma UsesAppend(ledger: seq<Entry>, e: Entry, id: string)
    ensures Uses(ledger + [e], id) == Uses(ledger, id) + if e.id == id then 1 else 0
  {
    assert (ledger + [e])[..|ledger|] == ledger;
  }

  lemma TotalAppend(scans: seq<ScanRecord>, r: ScanRecord, id: string)
    ensures TotalAttempts(scans + [r], id) == TotalAttempts(scans, id) + AttemptsOf(r.files, r.now, id)
  {
    hide AttemptsOf;
    assert (scans + [r])[..|scans|] == scans;
  }

  /** Attempts made and attempts left are at most ten for each transaction. */
  ghost predicate Bounded(scans: seq<ScanRecord>, files: seq<File>, ledger: seq<Entry>) {
    forall id :: TotalAttempts(scans, id) + LeftOf(files, id) <= 10 * Uses(ledger, id)
  }

  lemma AttemptsAtMostTen(mail: MailSystem, id: string)
    requires mail.AttemptsBounded()
    ensures TotalAttempts(mail.scans, id) <= 10 * Uses(mail.ledger, id)
  {
    hide TotalAttempts, LeftOf, Uses;
    assert TotalAttempts(mail.scans, id) + LeftOf(mail.files, id) <= 10 * Uses(mail.ledger, id);
  }

  lemma BoundedScan(scans: seq<ScanRecord>, files: seq<File>, ledger: seq<Entry>, now: nat, routes: string -> Route,
                    visits: seq<Visit>)
    requires Bounded(scans, files, ledger) && FilesOk(files) && SweepSpec(files, now, routes, visits)
    ensures Bounded(scans + [ScanRecord(files, now)], Survivors(files, visits), ledger)
  {
    hide TotalAttempts, LeftOf, Uses, AttemptsOf, FilesOk, VisitSpec, Survivors;
    forall id
      ensures TotalAttempts(scans + [ScanRecord(files, now)], id) + LeftOf(Survivors(files, visits), id)
           <= 10 * Uses(ledger, id)
    {
      TotalAppend(scans, ScanRecord(files, now), id);
      SweepAttempts(files, now, routes, visits, id);
      assert TotalAttempts(scans, id) + LeftOf(files, id) <= 10 * Uses(ledger, id);
    }
  }

  lemma BoundedEntry(scans: seq<ScanRecord>, files: seq<File>, ledger: seq<Entry>, e: Entry, more: seq<File>)
    requires Bounded(scans, files, ledger)
    requires more == [] || (|more| == 1 && more[0].stem == e.id)
    ensures Bounded(scans, files + more, ledger + [e])
  {
    hide TotalAttempts, LeftOf, Uses, AttemptsLeft;
    forall id ensures TotalAttempts(scans, id) + LeftOf(files + more, id) <= 10 * Uses(ledger + [e], id) {
      UsesAppend(ledger, e, id);
      if more == [] {
        assert files + more == files;
      } else {
        assert more == [more[0]];
        LeftAppend(files, more[0], id);
      }
      assert TotalAttempts(scans, id) + LeftOf(files, id) <= 10 * Uses(ledger, id);
    }
  }

  predicate AllConserved(ledger: seq<Entry>) {
    forall i :: 0 <= i < |ledger| ==> ledger[i].Conserved()
  }

  lemma LedgerAppend(ledger: seq<Entry>, e: Entry)
    ensures AcceptedBy(ledger + [e]) == AcceptedBy(ledger) + Tagged(e.id, e.rcpts)
    ensures AllConserved(ledger + [e]) <==> AllConserved(ledger) && e.Conserved()
  {
    hide Conserving;
    assert (ledger + [e])[..|ledger|] == ledger;
    assert (ledger + [e])[|ledger|] == e;
    forall i | 0 <= i < |ledger| ensures (ledger + [e])[i] == ledger[i] {
    }
  }

  /** What is owed is what is somewhere; or, once an address was lost, some address no file can hold is short for
      good. */
  ghost predicate Exact(owed: multiset<Booked>, total: multiset<Booked>, lossless: bool) {
    && (forall k: Booked :: !CleanAddress(k.address) ==> total[k] <= owed[k])
    && (if lossless then owed == total
        else exists k: Booked :: !CleanAddress(k.address) && total[k] < owed[k])
  }

  lemma ExactGrows(owed: multiset<Booked>, total: multiset<Booked>, lossless: bool, more: multiset<Booked>)
    requires Exact(owed, total, lossless)
    ensures Exact(owed + more, total + more, lossless)
  {
    hide CleanAddress;
    if !lossless {
      var k: Booked :| !CleanAddress(k.address) && total[k] < owed[k];
      assert (total + more)[k] < (owed + more)[k];
    }
  }

  /** A transaction whose remote recipients pass through a queue file keeps the books exact. */
  lemma ExactTransaction(owed: multiset<Booked>, total: multiset<Booked>, lossless: bool, id: string,
                         rcpts: seq<string>, local: seq<string>, remote: seq<string>, read: seq<string>)
    requires Exact(owed, total, lossless)
    requires multiset(rcpts) == multiset(local) + multiset(remote)
    requires CleanAddresses(read) && (CleanAddresses(remote) ==> read == remote)
    ensures Exact(owed + Tagged(id, rcpts), total + (Tagged(id, local) + Tagged(id, read)), lossless
          && CleanAddresses(remote))
  {
    hide CleanAddress, Tagged;
    var more, kept := Tagged(id, rcpts), Tagged(id, local) + Tagged(id, read);
    if CleanAddresses(remote) {
      TaggedParts(id, rcpts, local, remote);
      ExactGrows(owed, total, lossless, more);
    } else {
      forall k: Booked | !CleanAddress(k.address) ensures kept[k]
            + (if k.id == id then multiset(remote)[k.address] else 0) == more[k] {
        UncleanShare(id, rcpts, local, remote, read, k);
      }
      var i :| 0 <= i < |remote| && !CleanAddress(remote[i]);
      var k := Booked(id, remote[i]);
      assert multiset(remote)[remote[i]] > 0;
      assert kept[k] < more[k];
      assert (total + kept)[k] < (owed + more)[k];
    }
  }

  lemma TaggedParts(id: string, all: seq<string>, a: seq<string>, b: seq<string>)
    requires multiset(all) == multiset(a) + multiset(b)
    ensures Tagged(id, all) == Tagged(id, a) + Tagged(id, b)
  {
    TaggedSum(id, all, a, b, []);
    assert Tagged(id, []) == multiset{};
  }

  /** Of an address no file can hold, only stored copies are kept. */
  lemma UncleanShare(id: string, rcpts: seq<string>, local: seq<string>, remote: seq<string>, read: seq<string>,
        k: Booked)
    requires multiset(rcpts) == multiset(local) + multiset(remote)
    requires CleanAddresses(read) && !CleanAddress(k.address)
    ensures (Tagged(id, local) + Tagged(id, read))[k] + (if k.id == id then multiset(remote)[k.address] else 0)
         == Tagged(id, rcpts)[k]
  {
    hide CleanAddress, Tagged;
    TaggedCount(id, rcpts, k);
    TaggedCount(id, local, k);
    TaggedCount(id, read, k);
    forall i | 0 <= i < |read| ensures read[i] != k.address {
      assert CleanAddress(read[i]);
    }
    assert k.address !in multiset(read);
  }

  /** Tagged recipients are split in two exactly when the recipients are. */
  lemma TaggedIff(id: string, all: seq<string>, a: seq<string>, b: seq<string>)
    ensures Tagged(id, all) == Tagged(id, a) + Tagged(id, b) <==> multiset(all) == multiset(a) + multiset(b)
  {
    hide Tagged;
    if multiset(all) == multiset(a) + multiset(b) {
      TaggedParts(id, all, a, b);
    }
    if Tagged(id, all) == Tagged(id, a) + Tagged(id, b) {
      forall x ensures multiset(all)[x] == (multiset(a) + multiset(b))[x] {
        TaggedCount(id, all, Booked(id, x));
        TaggedCount(id, a, Booked(id, x));
        TaggedCount(id, b, Booked(id, x));
      }
    }
  }

  /** With balanced books, each recipient of a transaction with an id of its own is in exactly one place. */
  lemma OneTransaction(ledger: seq<Entry>, orphaned: multiset<Booked>, stored: multiset<Booked>, sent: multiset<Booked>,
                       bounced: multiset<Booked>, files: seq<File>, i: nat, address: string)
    requires i < |ledger| && AcceptedBy(ledger) + orphaned == stored + sent + bounced + Pending(files)
    requires forall j :: 0 <= j < |ledger| && j != i ==> ledger[j].id != ledger[i].id
    requires Booked(ledger[i].id, address) !in orphaned
    ensures var k := Booked(ledger[i].id, address);
            multiset(ledger[i].rcpts)[address] == stored[k] + sent[k] + bounced[k] + Pending(files)[k]
  {
    hide Pending;
    var k := Booked(ledger[i].id, address);
    OwnShare(ledger, i, k);
    assert (AcceptedBy(ledger) + orphaned)[k] == (stored + sent + bounced + Pending(files))[k];
  }

  lemma {:induction false} OwnShare(ledger: seq<Entry>, i: nat, k: Booked)
    requires i < |ledger| && k.id == ledger[i].id
    requires forall j :: 0 <= j < |ledger| && j != i ==> ledger[j].id != ledger[i].id
    ensures AcceptedBy(ledger)[k] == multiset(ledger[i].rcpts)[k.address]
    decreases |ledger|
  {
    var n := |ledger| - 1;
    TaggedCount(ledger[n].id, ledger[n].rcpts, k);
    if i == n {
      NoShare(ledger[..n], k);
    } else {
      OwnShare(ledger[..n], i, k);
    }
  }

  lemma {:induction false} NoShare(ledger: seq<Entry>, k: Booked)
    requires forall j :: 0 <= j < |ledger| ==> ledger[j].id != k.id
    ensures AcceptedBy(ledger)[k] == 0
    decreases |ledger|
  {
    if ledger == [] {
    } else {
      var n := |ledger| - 1;
      TaggedCount(ledger[n].id, ledger[n].rcpts, k);
      NoShare(ledger[..n], k);
    }
  }

  lemma Regroup4<T>(st: multiset<T>, s: multiset<T>, b: multiset<T>, p: multiset<T>, st1: multiset<T>, p1: multiset<T>)
    ensures (st + st1) + s + b + (p + p1) == (st + s + b + p) + (st1 + p1)
    ensures (st + st1) + s + b + p == (st + s + b + p) + st1
  {
  }

  lemma Resettle<T>(st: multiset<T>, s: multiset<T>, b: multiset<T>, left: multiset<T>, s1: multiset<T>,
        b1: multiset<T>)
    ensures st + (s + s1) + (b + b1) + left == st + s + b + (left + s1 + b1)
  {
  }

  /** The books after a transaction of a session. */
  lemma AcceptExactly(owed: multiset<Booked>, total: multiset<Booked>, lossless: bool, e: Entry)
    requires Exact(owed, total, lossless)
    requires e.isSubmission ==> OneLines(Remote(e.rcpts, e.resolve))
    requires e.isSubmission || e.Conserved()
    ensures var queued := ReadBack(QueuedAddresses(e.isSubmission, e.rcpts, e.resolve));
            Exact(owed + Tagged(e.id, e.rcpts), total
                  + (Tagged(e.id, Local(e.rcpts, e.resolve)) + Tagged(e.id, queued)),
                  lossless && e.Conserved())
  {
    hide Tagged, Exact, ReadBack, CleanAddresses, Remote, Local;
    var remote := Remote(e.rcpts, e.resolve);
    LocalAndRemote(e.rcpts, e.resolve);
    NoRemote(e.rcpts, e.resolve);
    if e.isSubmission {
      ReadBackIsClean(remote);
    } else {
      NoneIsClean();
    }
    if CleanAddresses(remote) { RecipientsReadBack(remote); }
    ExactTransaction(owed, total, lossless, e.id, e.rcpts, Local(e.rcpts, e.resolve), remote,
                     ReadBack(QueuedAddresses(e.isSubmission, e.rcpts, e.resolve)));
  }

  lemma NoneIsClean()
    ensures CleanAddresses([]) && ReadBack([]) == []
  {
    RecipientsReadBack([]);
  }

  /** Owed and accounted for after a transaction. */
  lemma EntryBooks(accepted: multiset<Booked>, orphaned: multiset<Booked>, st: multiset<Booked>, sent: multiset<Booked>,
                   bounced: multiset<Booked>, pending: multiset<Booked>, lossless: bool, e: Entry)
    requires e.isSubmission ==> OneLines(Remote(e.rcpts, e.resolve))
    ensures var local := Tagged(e.id, Local(e.rcpts, e.resolve));
            var queued := Tagged(e.id, ReadBack(QueuedAddresses(e.isSubmission, e.rcpts, e.resolve)));
            var owed := accepted + Tagged(e.id, e.rcpts) + orphaned;
            var total := (st + local) + sent + bounced + (pending + queued);
            && (accepted + orphaned == st + sent + bounced + pending ==> (owed == total <==> e.Conserved()))
            && ((e.isSubmission || e.Conserved()) && Exact(accepted + orphaned, st + sent + bounced + pending, lossless)
                ==> Exact(owed, total, lossless && e.Conserved()))
  {
    hide Tagged, Local, Remote, Exact, ReadBack, QueuedAddresses, OneLine, OneLines, Conserving;
    var local := Local(e.rcpts, e.resolve);
    var queued := ReadBack(QueuedAddresses(e.isSubmission, e.rcpts, e.resolve));
    var was, all := st + sent + bounced + pending, Tagged(e.id, e.rcpts);
    DeliveryBooks(e.isSubmission, e.rcpts, e.resolve);
    TaggedIff(e.id, e.rcpts, local, queued);
    Regroup4(st, sent, bounced, pending, Tagged(e.id, local), Tagged(e.id, queued));
    SwapLast(accepted, orphaned, all);
    Cancel(was, all, Tagged(e.id, local) + Tagged(e.id, queued));
    if (e.isSubmission || e.Conserved()) && Exact(accepted + orphaned, was, lossless) {
      AcceptExactly(accepted + orphaned, was, lossless, e);
    }
  }

  /** The mail store, the queue directory and the books of what left it. */
  class MailSystem {
    var files: seq<File>
    var store: seq<Copy>
    var stored: multiset<Booked>
    var sent: multiset<Booked>
    var bounced: multiset<Booked>
    /** Transactions answered with success, and copies stored for refused ones. */
    ghost var ledger: seq<Entry>
    ghost var orphaned: multiset<Booked>
    /** Every scan of the queue so far. */
    ghost var scans: seq<ScanRecord>

    constructor ()
      ensures files == [] && store == [] && stored == sent == bounced == orphaned == multiset{} && ledger == []
           && scans == []
      ensures Valid() && BooksExact() && AttemptsBounded() && FilesTraced()
    {
      files, store, stored, sent, bounced := [], [], multiset{}, multiset{}, multiset{};
      ledger, orphaned, scans := [], multiset{}, [];
    }

    /** No transaction is attempted more than ten times, what is still to come included. */
    ghost predicate AttemptsBounded()
      reads this
    {
      Bounded(scans, files, ledger)
    }

    /** Every queue file still carries a transaction that was accepted. */
    ghost predicate FilesTraced()
      reads this
    {
      Traced(files, ledger)
    }

    predicate Valid()
      reads this
    {
      FilesOk(files)
    }

    ghost function Owed(): multiset<Booked>
      reads this
    {
      AcceptedBy(ledger) + orphaned
    }

    ghost function Total(): multiset<Booked>
      reads this
    {
      stored + sent + bounced + Pending(files)
    }

    /** Every accepted recipient occurrence of every transaction is in exactly one place. */
    ghost predicate Balanced()
      reads this
    {
      Owed() == Total()
    }

    /** The books balance exactly while every accepted transaction conserves its recipients. */
    ghost predicate BooksExact()
      reads this
      ensures BooksExact() ==> (Balanced() <==> AllConserved(ledger))
    {
      Exact(Owed(), Total(), AllConserved(ledger))
    }

    /** One scan of the worker: each file is loaded, skipped, expired or attempted. */
    method ProcessQueue(now: nat, routes: string -> Route) returns (ghost visits: seq<Visit>)
      requires Valid()
      modifies this`files, this`sent, this`bounced, this`scans
      ensures Valid() && scans == old(scans) + [ScanRecord(old(files), now)]
      ensures old(AttemptsBounded()) ==> AttemptsBounded()
      ensures old(FilesTraced()) ==> FilesTraced()
      ensures SweepSpec(old(files), now, routes, visits)
      ensures files == Survivors(old(files), visits)
      ensures sent == old(sent) + SentBy(old(files), visits) && bounced == old(bounced) + BouncedBy(old(files), visits)
      ensures Total() == old(Total()) && Owed() == old(Owed())
    {
      hide SweepSpec, Survivors, SentBy, BouncedBy, FilesOk, Pending, Bounded, Traced;
      var rest, s, b;
      rest, s, b, visits := Sweep(files, now, routes);
      if FilesTraced() { SweepTraced(files, now, routes, visits, ledger); }
      if AttemptsBounded() { BoundedScan(scans, files, ledger, now, routes, visits); }
      scans := scans + [ScanRecord(files, now)];
      Resettle(stored, sent, bounced, Pending(rest), s, b);
      files, sent, bounced := rest, sent + s, bounced + b;
    }

    /** A scan keeps the books as exact as they were. */
    method Scan(now: nat, routes: string -> Route)
      requires Valid() && BooksExact() && AttemptsBounded() && FilesTraced()
      modifies this`files, this`sent, this`bounced, this`scans
      ensures Valid() && BooksExact() && AttemptsBounded() && FilesTraced()
    {
      ghost var visits := ProcessQueue(now, routes);
    }

    /** enqueue: one new file per accepted submission; a name already there is an error. */
    method Enqueue(stem: string, from: string, remote: seq<string>, now: nat, raw: string) returns (ok: bool)
      modifies this`files
      ensures ok <==> forall i :: 0 <= i < |old(files)| ==> old(files)[i].stem != stem
      ensures files == old(files) + if ok then [File(stem, Serialize(FreshMessage(stem, from, remote, now, raw)))]
            else []
    {
      ok := forall i :: 0 <= i < |files| ==> files[i].stem != stem;
      files := files + if ok then [File(stem, Serialize(FreshMessage(stem, from, remote, now, raw)))] else [];
    }

    /** The queue file of a submission, if it has remote recipients. */
    method EnqueueRemote(stem: string, from: string, remote: seq<string>, now: nat, raw: string, diskOk: bool)
      returns (ok: bool)
      modifies this`files
      ensures remote == [] ==> ok
      ensures files == old(files) + if remote == [] || !ok then []
                                    else [File(stem, Serialize(FreshMessage(stem, from, remote, now, raw)))]
      ensures remote != [] && ok ==> diskOk && forall i :: 0 <= i < |old(files)| ==> old(files)[i].stem != stem
      ensures remote == [] || !ok ==> files == old(files)
    {
      hide Serialize, FreshMessage;
      ok := remote == [];
      if remote != [] && diskOk { ok := Enqueue(stem, from, remote, now, raw); }
      assert old(files) + [] == old(files);
    }

    /** The copy of a submission in its sender's own mailbox. */
    method StoreSent(isSubmission: bool, authUser: Option<string>, from: string, raw: string,
                     resolve: string -> Option<string>, sentCopyOk: bool)
      returns (ok: bool, count: nat)
      modifies this`store
      ensures ok ==> store == old(store) + SentCopies(isSubmission, authUser, resolve, from, raw)
      ensures ok ==> count == if isSubmission && authUser.Some? && resolve(authUser.value).Some? then 1 else 0
      ensures !ok ==> store == old(store)
    {
      if isSubmission && authUser.Some? && resolve(authUser.value).Some? {
        if !sentCopyOk { return false, 0; }
        store := store + [Copy(resolve(authUser.value).value + "/.Sent", from, raw)];
        return true, 1;
      }
      return true, 0;
    }

    /** What deliver_mail does to the store and the queue; `copies` are the recipients stored when it fails. */
    method StoreAndQueue(isSubmission: bool, authUser: Option<string>, from: string, rcpts: seq<string>, raw: string,
                         resolve: string -> Option<string>, junk: bool, sentCopyOk: bool, storeOk: nat -> bool,
                         diskOk: bool, stem: string, now: nat)
      returns (r: Result<nat, DeliverError>, ghost copies: seq<string>, ghost boxed: seq<Copy>)
      modifies this`files, this`store, this`stored
      ensures stored == old(stored) + Tagged(stem, copies)
      ensures CopiesFor(boxed, copies, resolve, junk && !isSubmission, from, raw)
      ensures store == old(store) + SentCopies(isSubmission, authUser, resolve, from, raw) + boxed
           || (r.Err? && copies == [] && store == old(store))
      ensures r.Ok? ==> copies == Local(rcpts, resolve)
      ensures r.Ok? ==> files == old(files) + QueuedFiles(isSubmission, rcpts, resolve, stem, from, now, raw)
      ensures r.Ok? ==> r.value == |Local(rcpts, resolve)| + |QueuedAddresses(isSubmission, rcpts, resolve)|
                                   + if isSubmission && authUser.Some? && resolve(authUser.value).Some? then 1 else 0
      ensures r.Err? ==> files == old(files)
    {
      hide Local, Remote, Serialize, FreshMessage, CopiesFor, SentCopies, QueuedAddresses;
      NoCopies(resolve, junk && !isSubmission, from, raw);
      copies, boxed := [], [];
      assert stored + Tagged(stem, []) == stored;
      var sentOk, sentCopies := StoreSent(isSubmission, authUser, from, raw, resolve, sentCopyOk);
      if !sentOk { return Err(StoreFailed), [], []; }
      var ok, local, remote, count, put := StoreLocal(isSubmission, rcpts, resolve, storeOk, junk, from, raw);
      store := store + put;
      stored := stored + Tagged(stem, local);
      copies := local;
      if !ok { return Err(StoreFailed), local, put; }
      var written := EnqueueRemote(stem, from, remote, now, raw, diskOk);
      if !written { return Err(EnqueueFailed), local, put; }
      count := count + |remote|;
      if count + sentCopies == 0 { return Err(NoRecipients), local, put; }
      return Ok(count + sentCopies), local, put;
    }

    /** deliver_mail. `storeOk(i)` says whether quota and mailbox accept recipient i. */
    method DeliverMail(isSubmission: bool, authUser: Option<string>, from: string, rcpts: seq<string>, raw: string,
                       resolve: string -> Option<string>, junk: bool, sentCopyOk: bool, storeOk: nat -> bool,
                       diskOk: bool, stem: string, now: nat)
      returns (r: Result<nat, DeliverError>, ghost boxed: seq<Copy>)
      requires Valid() && stem != [] && CleanField(stem) && now + MAX_AGE <= MAX_U64
      requires isSubmission ==> OneLine(from) && OneLines(Remote(rcpts, resolve))
      modifies this`files, this`store, this`stored, this`ledger, this`orphaned
      ensures Valid()
      ensures r.Ok? ==> stored == old(stored) + Tagged(stem, Local(rcpts, resolve))
      ensures r.Ok? ==> CopiesFor(boxed, Local(rcpts, resolve), resolve, junk && !isSubmission, from, raw)
                        && store == old(store) + SentCopies(isSubmission, authUser, resolve, from, raw) + boxed
      ensures r.Ok? ==>
                old(files) <= files
                && Queues(files[|old(files)|..], Entry(stem, isSubmission, from, rcpts, raw, now, resolve))
      ensures old(FilesTraced()) ==> FilesTraced()
      ensures r.Ok? ==> r.value == |Local(rcpts, resolve)| + |QueuedAddresses(isSubmission, rcpts, resolve)|
                                   + if isSubmission && authUser.Some? && resolve(authUser.value).Some? then 1 else 0
      ensures r.Ok? ==> ledger == old(ledger) + [Entry(stem, isSubmission, from, rcpts, raw, now, resolve)]
                        && orphaned == old(orphaned)
      ensures r.Ok? && old(Balanced()) ==> (Balanced() <==> Conserving(isSubmission, rcpts, resolve))
      ensures r.Err? ==> files == old(files) && ledger == old(ledger) && (old(Balanced()) ==> Balanced())
      ensures old(BooksExact()) && (isSubmission || Conserving(isSubmission, rcpts, resolve)) ==> BooksExact()
      ensures old(AttemptsBounded()) ==> AttemptsBounded()
    {
      hide Local, Remote, Conserving, CleanAddresses, CleanField, Serialize, FreshMessage, Pending, FilesOk, Exact,
           Tagged, AcceptedBy, AllConserved, Bounded, OneLine, OneLines, QueuedFiles, QueuedAddresses, Traced, Queues,
           CopiesFor, SentCopies;
      ghost var copies;
      r, copies, boxed := StoreAndQueue(isSubmission, authUser, from, rcpts, raw, resolve, junk, sentCopyOk, storeOk,
                                        diskOk, stem, now);
      if r.Ok? {
        Accept(rcpts, isSubmission, resolve, stem, from, now, raw, old(files), old(stored));
      } else {
        Orphan(Tagged(stem, copies), old(stored));
      }
    }

    /** Books the transaction as accepted. */
    ghost method Accept(rcpts: seq<string>, isSubmission: bool, resolve: string -> Option<string>,
                        stem: string, from: string, now: nat, raw: string, before: seq<File>, st: multiset<Booked>)
      requires FilesOk(before) && stem != [] && CleanField(stem) && now + MAX_AGE <= MAX_U64
      requires isSubmission ==> OneLine(from) && OneLines(Remote(rcpts, resolve))
      requires stored == st + Tagged(stem, Local(rcpts, resolve))
      requires files == before + QueuedFiles(isSubmission, rcpts, resolve, stem, from, now, raw)
      modifies this`ledger
      ensures Valid() && ledger == old(ledger) + [Entry(stem, isSubmission, from, rcpts, raw, now, resolve)]
      ensures Queues(files[|before|..], Entry(stem, isSubmission, from, rcpts, raw, now, resolve))
      ensures Traced(before, old(ledger)) ==> FilesTraced()
      ensures Bounded(scans, before, old(ledger)) ==> AttemptsBounded()
      ensures old(Owed()) == st + sent + bounced + Pending(before)
          ==> (Balanced() <==> Conserving(isSubmission, rcpts, resolve))
      ensures isSubmission || Conserving(isSubmission, rcpts, resolve) ==>
                Exact(old(Owed()), st + sent + bounced + Pending(before), AllConserved(old(ledger))) ==> BooksExact()
    {
      hide Tagged, Pending, FilesOk, Local, Remote, Conserving, Exact, AcceptedBy, AllConserved, ReadBack,
           CleanAddresses, OneLine, OneLines, QueuedFiles, QueuedAddresses, CleanField, Bounded, Traced, Queues;
      var e := Entry(stem, isSubmission, from, rcpts, raw, now, resolve);
      var more := QueuedFiles(isSubmission, rcpts, resolve, stem, from, now, raw);
      assert files[|before|..] == more;
      QueuedFileLoads(e);
      if Traced(before, ledger) { TracedEntry(before, ledger, e, more); }
      LedgerAppend(ledger, e);
      QueuedOnce(isSubmission, rcpts, resolve, stem, from, now, raw);
      if Bounded(scans, before, ledger) {
        BoundedEntry(scans, before, ledger, e, more);
      }
      QueuedRecipients(isSubmission, rcpts, resolve, stem, from, now, raw, before);
      EntryBooks(AcceptedBy(ledger), orphaned, st, sent, bounced, Pending(before), AllConserved(ledger), e);
      ledger := ledger + [e];
    }

    /** Books copies stored for a transaction that is then refused. */
    ghost method Orphan(copies: multiset<Booked>, st: multiset<Booked>)
      requires stored == st + copies
      modifies this`orphaned
      ensures old(Owed()) == st + sent + bounced + Pending(files) ==> Balanced()
      ensures Exact(old(Owed()), st + sent + bounced + Pending(files), AllConserved(ledger)) ==> BooksExact()
    {
      hide Exact, AllConserved, Pending, AcceptedBy;
      var total := st + sent + bounced + Pending(files);
      Regroup4(st, sent, bounced, Pending(files), copies, copies);
      MultisetAssoc(AcceptedBy(ledger), orphaned, copies);
      if Exact(Owed(), total, AllConserved(ledger)) {
        ExactGrows(Owed(), total, AllConserved(ledger), copies);
      }
      orphaned := orphaned + copies;
    }
  }
}
