/** One harvesting cycle (`Once`): search the mailbox, build and create the
    upload directory, then fold over the delivered messages, uploading every
    admitted attachment under a template-derived name and keeping the
    counters of the cycle's result. The IMAP session, the template engine,
    the subject decoder and the WebDAV server are parameters. */
module Harvest {
  import opened Types
  import opened Strings
  import opened Mail
  import opened Naming
  import WebDav
  import Recipients
  import Config

  /** The cycle's result (`email.Result`). */
  datatype CycleResult = CycleResult(
    processed: nat,
    skippedRecipient: nat,
    msgsNoAttachments: nat,
    msgsWithAttachments: nat,
    totalParts: nat,
    uploaded: nat,
    seenToMark: seq<Uid>)

  const Empty: CycleResult := CycleResult(0, 0, 0, 0, 0, 0, [])

  /** The counters that depend on the delivered messages alone. */
  datatype Counts = Counts(
    processed: nat,
    skippedRecipient: nat,
    msgsNoAttachments: nat,
    msgsWithAttachments: nat,
    totalParts: nat)

  const Zero: Counts := Counts(0, 0, 0, 0, 0)

  function Plus(a: Counts, b: Counts): Counts {
    Counts(a.processed + b.processed,
           a.skippedRecipient + b.skippedRecipient,
           a.msgsNoAttachments + b.msgsNoAttachments,
           a.msgsWithAttachments + b.msgsWithAttachments,
           a.totalParts + b.totalParts)
  }

  lemma PlusZero(a: Counts)
    ensures Plus(a, Zero) == a && Plus(Zero, a) == a
  {
  }

  lemma PlusAssoc(a: Counts, b: Counts, c: Counts)
    ensures Plus(Plus(a, b), c) == Plus(a, Plus(b, c))
  {
  }

  function Tally(r: CycleResult): Counts {
    Counts(r.processed, r.skippedRecipient, r.msgsNoAttachments, r.msgsWithAttachments, r.totalParts)
  }

  // ------------------------------------------------------------------ inputs

  /** The mailbox search: every message, or only those with or without the
      `\Seen` flag. */
  datatype Criteria = AllMessages | SeenOnly | UnseenOnly

  /** The search criteria follow the task's optional seen filter. */
  function SearchCriteria(seen: Option<bool>): (c: Criteria)
    ensures c == AllMessages <==> seen.None?
    ensures c == SeenOnly <==> seen == Some(true)
    ensures c == UnseenOnly <==> seen == Some(false)
  {
    match seen
    case None => AllMessages
    case Some(b) => if b then SeenOnly else UnseenOnly
  }

  /** What the fetch delivered, in order (None for a nil message), and
      whether it finished without error. */
  datatype Fetched = Fetched(delivered: seq<Option<Message>>, ok: bool)

  /** The IMAP side: whether dial, STARTTLS, login and select succeed, the
      UID search (None on error), and the fetch of the found UIDs. */
  datatype Mailbox = Mailbox(
    sessionOk: bool,
    search: Criteria -> Option<seq<Uid>>,
    fetch: seq<Uid> -> Fetched)

  datatype CycleError =
    | SessionFailed
    | SearchFailed
    | FormatUnparseable
    | MkdirFailed(dir: string, prefix: string)
    | TemplateFailed
    | FetchFailed

  /** The result, the error ending the cycle (None on success), and every
      WebDAV exchange made. */
  datatype Outcome = Outcome(result: CycleResult, error: Option<CycleError>, trace: seq<WebDav.Exchange>)

  /** Everything the message loop needs from the task and the environment. */
  datatype Rules = Rules(
    relDir: string,
    allowed: set<string>,
    recipients: seq<string>,
    markSeen: bool,
    execute: NamingContext -> Option<string>,
    decode: string -> Option<string>,
    store: WebDav.Store)

  /** The loop state: the result so far and the exchanges so far. */
  datatype State = State(res: CycleResult, trace: seq<WebDav.Exchange>)

  /** The part loop state: the loop state plus the message's counters of
      admitted attachments (`att`) and successful uploads (`up`). */
  datatype Acc = Acc(res: CycleResult, trace: seq<WebDav.Exchange>, att: nat, up: nat)

  /** Carry on with the next item, or abort the cycle with this state. */
  datatype Step<S> = Next(s: S) | Stop(s: S)

  // ------------------------------------------------------------ the trace

  predicate IsUpload(e: WebDav.Exchange) {
    e.req.Put? && e.reply.Success?
  }

  /** Number of successful uploads in a trace. */
  function Puts(t: seq<WebDav.Exchange>): (n: nat)
    ensures n <= |t|
  {
    if t == [] then 0 else (if IsUpload(t[0]) then 1 else 0) + Puts(t[1..])
  }

  lemma {:induction false} PutsConcat(a: seq<WebDav.Exchange>, b: seq<WebDav.Exchange>)
    ensures Puts(a + b) == Puts(a) + Puts(b)
  {
    if a != [] {
      assert (a + b)[0] == a[0];
      assert (a + b)[1..] == a[1..] + b;
      PutsConcat(a[1..], b);
    } else {
      assert a + b == b;
    }
  }

  /** A directory walk uploads nothing. */
  lemma {:induction false} WalkHasNoUploads(t: seq<WebDav.Exchange>, ps: seq<string>, err: Option<string>)
    requires WebDav.WalkShape(t, ps, err)
    ensures Puts(t) == 0
    decreases |ps|
  {
    if ps != [] {
      if t[0].reply.Success? {
        WalkHasNoUploads(t[1..], ps[1..], err);
      } else {
        assert t[1..][0] == t[1] && t[1..][1..] == t[2..];
        if t[1].reply == WebDav.Success(true) {
          WalkHasNoUploads(t[2..], ps[1..], err);
        }
      }
    }
  }

  /** `t` continues `h` with answered exchanges, none of them a Mkcol. */
  ghost predicate Grows(store: WebDav.Store, h: seq<WebDav.Exchange>, t: seq<WebDav.Exchange>) {
    && Extends(h, t)
    && WebDav.Answered(store, t, |h|)
    && forall k :: |h| <= k < |t| ==> !t[k].req.Mkcol?
  }

  lemma GrowsRefl(store: WebDav.Store, h: seq<WebDav.Exchange>)
    ensures Grows(store, h, h)
  {
    assert h[..|h|] == h;
  }

  lemma GrowsTrans(store: WebDav.Store, a: seq<WebDav.Exchange>, b: seq<WebDav.Exchange>, c: seq<WebDav.Exchange>)
    requires Grows(store, a, b) && Grows(store, b, c)
    ensures Grows(store, a, c)
  {
    assert c[..|a|] == c[..|b|][..|a|];
    WebDav.AnsweredStep(store, b, c, |a|);
    forall k | |a| <= k < |b| ensures !c[k].req.Mkcol? {
      assert c[k] == c[..|b|][k];
    }
  }

  // ---------------------------------------------------------- one attachment

  /** The collision check and upload of one attachment: a Stat of the
      candidate, then a Put of the candidate, or of its `-dup` rewrite when
      the Stat succeeded (any Stat failure counting as absent); the rewrite
      is not checked again. */
  function Upload(store: WebDav.Store, h: seq<WebDav.Exchange>, target: string, ext: string, data: Bytes): (r: WebDav.Io<bool>)
    ensures |r.trace| == |h| + 2 && Grows(store, h, r.trace)
    ensures r.trace[|h|].req == WebDav.Stat(TrimSlashes(target))
    ensures r.trace[|h| + 1].req
         == WebDav.Put(TrimSlashes(if r.trace[|h|].reply.Success? then DupTarget(target, ext) else target), data)
    ensures r.value <==> r.trace[|h| + 1].reply.Success?
    ensures Puts(r.trace) == Puts(h) + (if r.value then 1 else 0)
  {
    var e := WebDav.Exists(store, h, target);
    var c := WebDav.Create(store, e.trace, if e.value then DupTarget(target, ext) else target, data);
    WebDav.AnsweredStep(store, e.trace, c.trace, |h|);
    assert c.trace[..|h| + 1] == e.trace;
    assert c.trace[..|h|] == h;
    assert c.trace == h + [c.trace[|h|], c.trace[|h| + 1]];
    PutsConcat(h, [c.trace[|h|], c.trace[|h| + 1]]);
    WebDav.Io(c.trace, c.value)
  }

  /** The part is an attachment whose extension passes the allow-list, so it
      counts towards `TotalParts`. */
  predicate Counted(allowed: set<string>, p: Part) {
    p.Attachment? && Admits(allowed, ExtensionOf(AttachmentName(p.filename)))
  }

  /** Template output the cycle accepts: present and non-empty. */
  predicate Produced(out: Option<string>) {
    out.Some? && out.value != []
  }

  /** The naming context of an attachment. */
  function ContextOf(p: Part, subj: string, uid: Uid, env: Envelope): NamingContext
    requires p.Attachment?
  {
    var name := AttachmentName(p.filename);
    var ext := ExtensionOf(name);
    NamingContext(OrigBase(name, ext), "." + ext, subj, uid, env.date, env.dateTime)
  }

  /** One iteration of the part loop. A part that is not an admitted
      attachment changes nothing; an admitted one is counted even when its
      payload cannot be read; the cycle aborts exactly when the template
      fails or yields nothing for a readable one; otherwise it is uploaded,
      and a successful upload is counted once in `up` and in `Uploaded`. The
      only requests a part sends are that upload's, to the candidate built
      from the template output and the attachment's extension. */
  function HandlePart(rules: Rules, subj: string, uid: Uid, env: Envelope, acc: Acc, p: Part): (r: Step<Acc>)
    ensures !Counted(rules.allowed, p) ==> r == Next(acc)
    ensures r.s.att == acc.att + (if Counted(rules.allowed, p) then 1 else 0)
    ensures r.Stop? <==> Counted(rules.allowed, p) && p.payload.Some?
                         && !Produced(rules.execute(ContextOf(p, subj, uid, env)))
    ensures r.Stop? ==> r.s.trace == acc.trace && r.s.up == acc.up
    ensures Counted(rules.allowed, p) && p.payload.Some? && Produced(rules.execute(ContextOf(p, subj, uid, env))) ==>
              var ext := ExtensionOf(AttachmentName(p.filename));
              var name := FileName(rules.execute(ContextOf(p, subj, uid, env)).value, ext);
              r.s.trace == Upload(rules.store, acc.trace, Candidate(rules.relDir, name), ext, p.payload.value).trace
    ensures !(Counted(rules.allowed, p) && p.payload.Some? && Produced(rules.execute(ContextOf(p, subj, uid, env)))) ==>
              r.s.trace == acc.trace
    ensures r.s.res == acc.res.(uploaded := r.s.res.uploaded)
    ensures acc.up <= r.s.up <= acc.up + (r.s.att - acc.att)
    ensures r.s.up - acc.up == r.s.res.uploaded - acc.res.uploaded == Puts(r.s.trace) - Puts(acc.trace)
    ensures Grows(rules.store, acc.trace, r.s.trace)
  {
    GrowsRefl(rules.store, acc.trace);
    match p
    case Inline => Next(acc)
    case Attachment(filename, payload) =>
      var name := AttachmentName(filename);
      var ext := ExtensionOf(name);
      if !Admits(rules.allowed, ext) then Next(acc)
      else
        var a := acc.(att := acc.att + 1);
        if payload.None? then Next(a)
        else
          var out := rules.execute(ContextOf(p, subj, uid, env));
          if out.None? || out.value == [] then Stop(a)
          else
            var target := Candidate(rules.relDir, FileName(out.value, ext));
            var u := Upload(rules.store, a.trace, target, ext, payload.value);
            if u.value then
              Next(a.(trace := u.trace, up := a.up + 1, res := a.res.(uploaded := a.res.uploaded + 1)))
            else
              Next(a.(trace := u.trace))
  }

  /** Number of parts counted towards `TotalParts`. */
  function KeptCount(allowed: set<string>, parts: seq<Part>): (n: nat)
    ensures n <= |parts|
  {
    if parts == [] then 0
    else (if Counted(allowed, parts[0]) then 1 else 0) + KeptCount(allowed, parts[1..])
  }

  /** The part loop of one message. When it runs to the end, `att` has grown
      by the number of counted parts; at every point the message's uploads
      are at most its counted parts and match the uploads in the trace, and
      nothing in the result but `Uploaded` has changed. */
  function Extract(rules: Rules, subj: string, uid: Uid, env: Envelope, acc: Acc, parts: seq<Part>): (r: Step<Acc>)
    ensures r.Next? ==> r.s.att == acc.att + KeptCount(rules.allowed, parts)
    ensures acc.att <= r.s.att
    ensures r.s.res == acc.res.(uploaded := r.s.res.uploaded)
    ensures acc.up <= r.s.up <= acc.up + (r.s.att - acc.att)
    ensures r.s.up - acc.up == r.s.res.uploaded - acc.res.uploaded == Puts(r.s.trace) - Puts(acc.trace)
    ensures Grows(rules.store, acc.trace, r.s.trace)
    decreases |parts|
  {
    if parts == [] then
      GrowsRefl(rules.store, acc.trace);
      Next(acc)
    else
      match HandlePart(rules, subj, uid, env, acc, parts[0])
      case Stop(a) => Stop(a)
      case Next(a) =>
        var r := Extract(rules, subj, uid, env, a, parts[1..]);
        GrowsTrans(rules.store, acc.trace, a.trace, r.s.trace);
        r
  }

  // ------------------------------------------------------------- one message

  /** A delivered message with an envelope; the loop ignores the others. */
  predicate Enveloped(m: Option<Message>) {
    m.Some? && m.value.envelope.Some?
  }

  /** The recipient filter lets the message through: no wanted recipients
      are configured, or one of them is among its addresses. */
  predicate Admitted(recipients: seq<string>, m: Option<Message>)
    requires Enveloped(m)
  {
    |recipients| == 0 || Recipients.RecipientsMatch(m.value.envelope.value, recipients)
  }

  /** The counters one message contributes when the loop runs through it,
      defined directly from the message. */
  function Expected(allowed: set<string>, recipients: seq<string>, m: Option<Message>): Counts {
    if !Enveloped(m) then Zero
    else if !Admitted(recipients, m) then Zero.(skippedRecipient := 1)
    else BodyCounts(allowed, m.value.body)
  }

  /** The counters of a processed message: one message, with or without
      attachments according to its counted parts, and those parts. */
  function BodyCounts(allowed: set<string>, body: Body): Counts {
    match body
    case Parsed(parts) =>
      var n := KeptCount(allowed, parts);
      Counts(1, 0, if n == 0 then 1 else 0, if n == 0 then 0 else 1, n)
    case _ => Zero.(processed := 1)
  }

  /** The subject offered to the template: the decoded subject when decoding
      succeeds with a non-empty result, the raw one otherwise. */
  function SubjectOf(raw: string, decode: string -> Option<string>): (r: string)
    ensures r == raw || decode(raw) == Some(r)
    ensures decode(raw).Some? && decode(raw).value != [] ==> r == decode(raw).value
    ensures r == [] ==> raw == []
  {
    var d := decode(raw);
    if d.Some? && d.value != [] then d.value else raw
  }

  /** The bookkeeping after a message's part loop. */
  function Close(res: CycleResult, att: nat, up: nat, markSeen: bool, uid: Uid): (r: CycleResult)
    ensures r.processed == res.processed + 1
    ensures r.skippedRecipient == res.skippedRecipient && r.uploaded == res.uploaded
    ensures r.msgsNoAttachments + r.msgsWithAttachments == res.msgsNoAttachments + res.msgsWithAttachments + 1
    ensures r.msgsWithAttachments > res.msgsWithAttachments <==> att > 0
    ensures r.totalParts == res.totalParts + att
    ensures |r.seenToMark| == |res.seenToMark| + (if up > 0 && markSeen then 1 else 0)
    ensures r.seenToMark[..|res.seenToMark|] == res.seenToMark
    ensures up > 0 && markSeen ==> r.seenToMark[|res.seenToMark|] == uid
  {
    var res := if att == 0 then res.(msgsNoAttachments := res.msgsNoAttachments + 1)
               else res.(msgsWithAttachments := res.msgsWithAttachments + 1, totalParts := res.totalParts + att);
    var res := if up > 0 && markSeen then res.(seenToMark := res.seenToMark + [uid]) else res;
    res.(processed := res.processed + 1)
  }

  /** A message the filters let through. Unless its part loop aborts, the
      message is counted once, as one with or without attachments, its
      counted parts are added to `TotalParts`, and its UID is queued exactly
      when marking is on and one of its parts was uploaded. A missing or
      unparseable body counts as processed and nothing more. */
  function HandleBody(rules: Rules, st: State, uid: Uid, env: Envelope, body: Body): (r: Step<State>)
    ensures r.Next? ==> Tally(r.s.res) == Plus(Tally(st.res), BodyCounts(rules.allowed, body))
    ensures r.Stop? ==> Tally(r.s.res) == Tally(st.res) && r.s.res.seenToMark == st.res.seenToMark
    ensures st.res.uploaded <= r.s.res.uploaded
    ensures r.s.res.uploaded - st.res.uploaded == Puts(r.s.trace) - Puts(st.trace)
    ensures r.Next? ==> r.s.res.uploaded - st.res.uploaded <= r.s.res.totalParts - st.res.totalParts
    ensures r.Next? ==> r.s.res.seenToMark
                        == st.res.seenToMark + (if rules.markSeen && r.s.res.uploaded > st.res.uploaded then [uid] else [])
    ensures r.Next? && r.s.res.uploaded > st.res.uploaded
            ==> r.s.res.msgsWithAttachments == st.res.msgsWithAttachments + 1
    ensures Grows(rules.store, st.trace, r.s.trace)
  {
    if body.Parsed? then HandleParts(rules, st, uid, env, body.parts)
    else
      GrowsRefl(rules.store, st.trace);
      assert st.res.seenToMark + [] == st.res.seenToMark;
      Next(State(st.res.(processed := st.res.processed + 1), st.trace))
  }

  /** The part loop of a parsed message followed by its bookkeeping. */
  function HandleParts(rules: Rules, st: State, uid: Uid, env: Envelope, parts: seq<Part>): (r: Step<State>)
    ensures r.Next? ==> Tally(r.s.res) == Plus(Tally(st.res), BodyCounts(rules.allowed, Parsed(parts)))
    ensures r.Stop? ==> Tally(r.s.res) == Tally(st.res) && r.s.res.seenToMark == st.res.seenToMark
    ensures st.res.uploaded <= r.s.res.uploaded
    ensures r.s.res.uploaded - st.res.uploaded == Puts(r.s.trace) - Puts(st.trace)
    ensures r.Next? ==> r.s.res.uploaded - st.res.uploaded <= r.s.res.totalParts - st.res.totalParts
    ensures r.Next? ==> r.s.res.seenToMark
                        == st.res.seenToMark + (if rules.markSeen && r.s.res.uploaded > st.res.uploaded then [uid] else [])
    ensures r.Next? && r.s.res.uploaded > st.res.uploaded
            ==> r.s.res.msgsWithAttachments == st.res.msgsWithAttachments + 1
    ensures Grows(rules.store, st.trace, r.s.trace)
  {
    var subj := SubjectOf(env.subject, rules.decode);
    match Extract(rules, subj, uid, env, Acc(st.res, st.trace, 0, 0), parts)
    case Stop(a) => Stop(State(a.res, a.trace))
    case Next(a) => Next(State(Close(a.res, a.att, a.up, rules.markSeen, uid), a.trace))
  }

  /** One iteration of the message loop. A message without envelope changes
      nothing; one the recipient filter rejects only bumps
      `SkippedRecipient`. Otherwise the counters grow by what the message
      alone determines (`Expected`), and its UID is queued exactly when
      marking is enabled and one of its attachments was uploaded. An abort
      leaves all counters but `Uploaded` unchanged. */
  function HandleMessage(rules: Rules, st: State, m: Option<Message>): (r: Step<State>)
    ensures !Enveloped(m) ==> r == Next(st)
    ensures Enveloped(m) && !Admitted(rules.recipients, m)
            ==> r == Next(State(st.res.(skippedRecipient := st.res.skippedRecipient + 1), st.trace))
    ensures r.Next? ==> Tally(r.s.res) == Plus(Tally(st.res), Expected(rules.allowed, rules.recipients, m))
    ensures r.Stop? ==> Tally(r.s.res) == Tally(st.res) && r.s.res.seenToMark == st.res.seenToMark
    ensures st.res.uploaded <= r.s.res.uploaded
    ensures r.s.res.uploaded - st.res.uploaded == Puts(r.s.trace) - Puts(st.trace)
    ensures r.Next? ==> r.s.res.uploaded - st.res.uploaded <= r.s.res.totalParts - st.res.totalParts
    ensures r.Next? && !(rules.markSeen && r.s.res.uploaded > st.res.uploaded)
            ==> r.s.res.seenToMark == st.res.seenToMark
    ensures r.Next? && rules.markSeen && r.s.res.uploaded > st.res.uploaded
            ==> Enveloped(m) && r.s.res.seenToMark == st.res.seenToMark + [m.value.uid]
                && r.s.res.msgsWithAttachments == st.res.msgsWithAttachments + 1
  {
    if !Enveloped(m) then Next(st)
    else if !Admitted(rules.recipients, m) then
      Next(State(st.res.(skippedRecipient := st.res.skippedRecipient + 1), st.trace))
    else
      HandleBody(rules, st, m.value.uid, m.value.envelope.value, m.value.body)
  }

  /** A message's step only appends answered Stat and Put exchanges. */
  lemma MessageGrows(rules: Rules, st: State, m: Option<Message>)
    ensures Grows(rules.store, st.trace, HandleMessage(rules, st, m).s.trace)
  {
    GrowsRefl(rules.store, st.trace);
  }

  // ------------------------------------------------------------ the message loop

  /** The counters a sequence of messages contributes. */
  function ExpectedAll(allowed: set<string>, recipients: seq<string>, msgs: seq<Option<Message>>): Counts {
    if msgs == [] then Zero
    else Plus(Expected(allowed, recipients, msgs[0]), ExpectedAll(allowed, recipients, msgs[1..]))
  }

  /** The UIDs of the delivered messages. */
  function UidsOf(msgs: seq<Option<Message>>): set<Uid> {
    set i | 0 <= i < |msgs| && msgs[i].Some? :: msgs[i].value.uid
  }

  /** The message loop: each message in delivery order until one aborts the
      cycle. `Uploaded` keeps tracking the uploads in the trace, and the
      trace only grows, by answered Stat and Put exchanges. */
  function Drain(rules: Rules, st: State, msgs: seq<Option<Message>>): (r: Step<State>)
    ensures st.res.uploaded <= r.s.res.uploaded
    ensures r.s.res.uploaded - st.res.uploaded == Puts(r.s.trace) - Puts(st.trace)
    decreases |msgs|
  {
    if msgs == [] then Next(st)
    else
      match HandleMessage(rules, st, msgs[0])
      case Stop(s) => Stop(s)
      case Next(s) => Drain(rules, s, msgs[1..])
  }

  /** The loop only appends answered Stat and Put exchanges. */
  lemma {:induction false} DrainGrows(rules: Rules, st: State, msgs: seq<Option<Message>>)
    ensures Grows(rules.store, st.trace, Drain(rules, st, msgs).s.trace)
    decreases |msgs|
  {
    if msgs == [] {
      GrowsRefl(rules.store, st.trace);
    } else {
      MessageGrows(rules, st, msgs[0]);
      match HandleMessage(rules, st, msgs[0])
      case Stop(s) =>
      case Next(s) =>
        DrainGrows(rules, s, msgs[1..]);
        GrowsTrans(rules.store, st.trace, s.trace, Drain(rules, s, msgs[1..]).s.trace);
    }
  }

  /** Run to the end, the loop adds exactly the counters the messages
      determine; aborted, it adds those of some proper prefix of them. */
  lemma {:induction false} DrainCounts(rules: Rules, st: State, msgs: seq<Option<Message>>)
    ensures var r := Drain(rules, st, msgs);
            && (r.Next? ==> Tally(r.s.res) == Plus(Tally(st.res), ExpectedAll(rules.allowed, rules.recipients, msgs)))
            && (r.Stop? ==> (exists k :: 0 <= k < |msgs|
                                 && Tally(r.s.res) == Plus(Tally(st.res), ExpectedAll(rules.allowed, rules.recipients, msgs[..k]))))
    decreases |msgs|
  {
    if msgs == [] {
      PlusZero(Tally(st.res));
    } else {
      var e := Expected(rules.allowed, rules.recipients, msgs[0]);
      match HandleMessage(rules, st, msgs[0])
      case Stop(s) =>
        assert msgs[..0] == [];
        PlusZero(Tally(st.res));
        assert Tally(s.res) == Plus(Tally(st.res), ExpectedAll(rules.allowed, rules.recipients, msgs[..0]));
      case Next(s) =>
        DrainCounts(rules, s, msgs[1..]);
        var r := Drain(rules, s, msgs[1..]);
        assert Drain(rules, st, msgs) == r;
        if r.Stop? {
          var k :| 0 <= k < |msgs[1..]|
                   && Tally(r.s.res) == Plus(Tally(s.res), ExpectedAll(rules.allowed, rules.recipients, msgs[1..][..k]));
          ExpectedAllPrefix(rules.allowed, rules.recipients, msgs, k);
          PlusAssoc(Tally(st.res), e, ExpectedAll(rules.allowed, rules.recipients, msgs[1..][..k]));
          assert Tally(r.s.res) == Plus(Tally(st.res), ExpectedAll(rules.allowed, rules.recipients, msgs[..k + 1]));
        } else {
          PlusAssoc(Tally(st.res), e, ExpectedAll(rules.allowed, rules.recipients, msgs[1..]));
        }
    }
  }

  /** The counts of a non-empty prefix: its first message's, then the rest's. */
  lemma ExpectedAllPrefix(allowed: set<string>, recipients: seq<string>, msgs: seq<Option<Message>>, k: nat)
    requires k < |msgs|
    ensures ExpectedAll(allowed, recipients, msgs[..k + 1])
         == Plus(Expected(allowed, recipients, msgs[0]), ExpectedAll(allowed, recipients, msgs[1..][..k]))
  {
    assert msgs[..k + 1][0] == msgs[0] && msgs[..k + 1][1..] == msgs[1..][..k];
  }

  /** Run to the end, the loop uploads at most as many attachments as it
      adds to `TotalParts`. */
  lemma {:induction false} DrainUploadsBounded(rules: Rules, st: State, msgs: seq<Option<Message>>)
    ensures var r := Drain(rules, st, msgs);
            r.Next? ==> r.s.res.uploaded - st.res.uploaded <= r.s.res.totalParts - st.res.totalParts
    decreases |msgs|
  {
    if msgs != [] {
      match HandleMessage(rules, st, msgs[0])
      case Stop(s) =>
      case Next(s) =>
        DrainUploadsBounded(rules, s, msgs[1..]);
        DrainCounts(rules, s, msgs[1..]);
    }
  }

  /** UIDs are only appended, at most one per message with attachments, each
      the UID of a delivered message, and none when marking is off. */
  lemma {:induction false} DrainSeen(rules: Rules, st: State, msgs: seq<Option<Message>>)
    ensures var r := Drain(rules, st, msgs);
            && Extends(st.res.seenToMark, r.s.res.seenToMark)
            && st.res.msgsWithAttachments <= r.s.res.msgsWithAttachments
            && |r.s.res.seenToMark| - |st.res.seenToMark| <= r.s.res.msgsWithAttachments - st.res.msgsWithAttachments
            && (!rules.markSeen ==> r.s.res.seenToMark == st.res.seenToMark)
            && forall k :: |st.res.seenToMark| <= k < |r.s.res.seenToMark| ==> r.s.res.seenToMark[k] in UidsOf(msgs)
    decreases |msgs|
  {
    if msgs == [] {
      assert st.res.seenToMark[..|st.res.seenToMark|] == st.res.seenToMark;
    } else {
      match HandleMessage(rules, st, msgs[0])
      case Stop(s) =>
        assert s.res.seenToMark[..|st.res.seenToMark|] == st.res.seenToMark;
      case Next(s) =>
        DrainSeen(rules, s, msgs[1..]);
        var r := Drain(rules, s, msgs[1..]);
        SeenStep(rules, st, s, r.s.res.seenToMark, msgs);
    }
  }

  /** The UIDs queued by one message and by the rest stay delivered UIDs. */
  lemma SeenStep(rules: Rules, st: State, s: State, c: seq<Uid>, msgs: seq<Option<Message>>)
    requires msgs != [] && HandleMessage(rules, st, msgs[0]) == Next(s)
    requires Extends(s.res.seenToMark, c)
    requires forall k :: |s.res.seenToMark| <= k < |c| ==> c[k] in UidsOf(msgs[1..])
    ensures Extends(st.res.seenToMark, c)
    ensures forall k :: |st.res.seenToMark| <= k < |c| ==> c[k] in UidsOf(msgs)
  {
    var a := st.res.seenToMark;
    var b := s.res.seenToMark;
    assert |b| <= |a| + 1 && b[..|a|] == a;
    assert c[..|a|] == c[..|b|][..|a|];
    forall k | |a| <= k < |c| ensures c[k] in UidsOf(msgs) {
      if k < |b| {
        assert b[k] == msgs[0].value.uid;
        assert c[k] == c[..|b|][k];
      } else {
        var j :| 0 <= j < |msgs[1..]| && msgs[1..][j].Some? && msgs[1..][j].value.uid == c[k];
        assert msgs[j + 1] == msgs[1..][j];
      }
    }
  }

  // ------------------------------------------------------------ the cycle

  function Search(task: Config.Task, mb: Mailbox): Option<seq<Uid>> {
    mb.search(SearchCriteria(task.filter.seen))
  }

  /** The session is up and the search found messages. */
  predicate Found(task: Config.Task, mb: Mailbox) {
    mb.sessionOk && Search(task, mb).Some? && Search(task, mb).value != []
  }

  /** The messages the fetch delivers in a cycle that gets that far. */
  function Delivered(task: Config.Task, mb: Mailbox): seq<Option<Message>> {
    if Found(task, mb) then mb.fetch(Search(task, mb).value).delivered else []
  }

  function RulesOf(task: Config.Task, tmpl: Template, decode: string -> Option<string>, store: WebDav.Store): Rules {
    Rules(RelDir(task.path, task.tags), AllowedExtensions(task.filter.extensions), task.filter.recipients,
          task.markSeen, tmpl.execute, decode, store)
  }

  /** The directory walk of the cycle: none when the upload directory is
      empty. */
  function Prepare(store: WebDav.Store, relDir: string): (r: WebDav.Io<Option<string>>)
    ensures relDir == [] ==> r == WebDav.Io([], None)
    ensures relDir != [] ==> r == WebDav.Mkdir(store, [], relDir)
    ensures WebDav.Answered(store, r.trace, 0) && Puts(r.trace) == 0
  {
    if relDir != [] then
      var m := WebDav.Mkdir(store, [], relDir);
      assert m.trace[0..] == m.trace;
      WalkHasNoUploads(m.trace, WebDav.Prefixes(WebDav.Elements(relDir)), m.value);
      m
    else WebDav.Io([], None)
  }

  /** How the cycle ends once the message loop stops: a template failure,
      or the fetch's own verdict when the loop ran to the end. */
  function Finish(d: Step<State>, fetchOk: bool): (r: Outcome)
    ensures r.result == d.s.res && r.trace == d.s.trace
    ensures r.error == Some(TemplateFailed) <==> d.Stop?
    ensures r.error == Some(FetchFailed) <==> d.Next? && !fetchOk
    ensures r.error.None? <==> d.Next? && fetchOk
    ensures r.error.Some? ==> r.error.value in {TemplateFailed, FetchFailed}
  {
    match d
    case Stop(s) => Outcome(s.res, Some(TemplateFailed), s.trace)
    case Next(s) => Outcome(s.res, if fetchOk then None else Some(FetchFailed), s.trace)
  }

  /** `Once`. Session and search failures, an empty search and an
      unparseable format end the cycle before any WebDAV call, with an empty
      result. Every reply in the trace is the server's, and `Uploaded` always
      equals the number of successful uploads in it. */
  function Once(task: Config.Task, mb: Mailbox, tmpl: Template, decode: string -> Option<string>,
                store: WebDav.Store): (r: Outcome)
    ensures !mb.sessionOk ==> r == Outcome(Empty, Some(SessionFailed), [])
    ensures mb.sessionOk && Search(task, mb).None? ==> r == Outcome(Empty, Some(SearchFailed), [])
    ensures mb.sessionOk && Search(task, mb) == Some([]) ==> r == Outcome(Empty, None, [])
    ensures Found(task, mb) && !tmpl.parses ==> r == Outcome(Empty, Some(FormatUnparseable), [])
    ensures WebDav.Answered(store, r.trace, 0)
    ensures r.result.uploaded == Puts(r.trace)
  {
    if !mb.sessionOk then Outcome(Empty, Some(SessionFailed), [])
    else if Search(task, mb).None? then Outcome(Empty, Some(SearchFailed), [])
    else if Search(task, mb).value == [] then Outcome(Empty, None, [])
    else if !tmpl.parses then Outcome(Empty, Some(FormatUnparseable), [])
    else
      var rules := RulesOf(task, tmpl, decode, store);
      var mk := Prepare(store, rules.relDir);
      if mk.value.Some? then Outcome(Empty, Some(MkdirFailed("/" + rules.relDir, mk.value.value)), mk.trace)
      else
        var fetched := mb.fetch(Search(task, mb).value);
        var r := Drain(rules, State(Empty, mk.trace), fetched.delivered);
        DrainGrows(rules, State(Empty, mk.trace), fetched.delivered);
        WebDav.AnsweredStep(store, mk.trace, r.s.trace, 0);
        Finish(r, fetched.ok)
  }

  /** The cycle gets past the search and the format check. */
  predicate Reached(task: Config.Task, mb: Mailbox, tmpl: Template) {
    Found(task, mb) && tmpl.parses
  }

  /** With an empty upload directory no collection is ever created. */
  lemma OnceWithoutDirectory(task: Config.Task, mb: Mailbox, tmpl: Template, decode: string -> Option<string>,
                             store: WebDav.Store)
    requires Reached(task, mb, tmpl) && RelDir(task.path, task.tags) == []
    ensures var r := Once(task, mb, tmpl, decode, store);
            forall k :: 0 <= k < |r.trace| ==> !r.trace[k].req.Mkcol?
  {
    OnceAfterWalk(task, mb, tmpl, decode, store);
  }

  /** A non-empty upload directory is walked before anything else is sent:
      the cycle's trace starts with the walk's. */
  lemma OnceDirectoryFirst(task: Config.Task, mb: Mailbox, tmpl: Template, decode: string -> Option<string>,
                           store: WebDav.Store)
    requires Reached(task, mb, tmpl) && RelDir(task.path, task.tags) != []
    ensures Extends(Prepare(store, RelDir(task.path, task.tags)).trace, Once(task, mb, tmpl, decode, store).trace)
  {
    var relDir := RelDir(task.path, task.tags);
    var mk := Prepare(store, relDir);
    var o := Once(task, mb, tmpl, decode, store);
    if mk.value.Some? {
      OnceMkdirFailed(task, mb, tmpl, decode, store);
    } else {
      OnceAfterWalk(task, mb, tmpl, decode, store);
    }
    StartsWithWalk(store, mk, o);
  }

  /** A cycle that ends with the walk's trace, or continues it, starts with
      it. */
  lemma StartsWithWalk(store: WebDav.Store, mk: WebDav.Io<Option<string>>, o: Outcome)
    requires mk.value.Some? ==> o.trace == mk.trace
    requires mk.value.None? ==> Grows(store, mk.trace, o.trace)
    ensures Extends(mk.trace, o.trace)
  {
    assert mk.trace[..|mk.trace|] == mk.trace;
  }

  /** A failed directory walk ends the cycle with an empty result, its own
      trace, and an error naming the directory and the failing prefix. */
  lemma OnceMkdirFailed(task: Config.Task, mb: Mailbox, tmpl: Template, decode: string -> Option<string>,
                        store: WebDav.Store)
    requires Reached(task, mb, tmpl)
    requires Prepare(store, RelDir(task.path, task.tags)).value.Some?
    ensures var mk := Prepare(store, RelDir(task.path, task.tags));
            var failure := MkdirFailed("/" + RelDir(task.path, task.tags), mk.value.value);
            Once(task, mb, tmpl, decode, store) == Outcome(Empty, Some(failure), mk.trace)
  {
  }

  /** Past a successful directory walk the cycle's trace continues the
      walk's with answered Stat and Put exchanges only. */
  lemma OnceAfterWalk(task: Config.Task, mb: Mailbox, tmpl: Template, decode: string -> Option<string>,
                      store: WebDav.Store)
    requires Reached(task, mb, tmpl)
    requires Prepare(store, RelDir(task.path, task.tags)).value.None?
    ensures Grows(store, Prepare(store, RelDir(task.path, task.tags)).trace, Once(task, mb, tmpl, decode, store).trace)
  {
    var rules := RulesOf(task, tmpl, decode, store);
    var mk := Prepare(store, rules.relDir);
    OnceLoop(task, mb, tmpl, decode, store);
    DrainGrows(rules, State(Empty, mk.trace), Delivered(task, mb));
  }

  /** Past a successful directory walk the cycle is the message loop over
      the delivered messages, closed by `Finish`. */
  lemma OnceLoop(task: Config.Task, mb: Mailbox, tmpl: Template, decode: string -> Option<string>,
                 store: WebDav.Store)
    requires Reached(task, mb, tmpl)
    requires Prepare(store, RelDir(task.path, task.tags)).value.None?
    ensures Once(task, mb, tmpl, decode, store)
         == Finish(Drain(RulesOf(task, tmpl, decode, store),
                         State(Empty, Prepare(store, RelDir(task.path, task.tags)).trace),
                         Delivered(task, mb)),
                   mb.fetch(Search(task, mb).value).ok)
  {
  }

  /** Every other cycle ends with an empty result and an error of its own,
      or with no error only when the search found nothing. */
  lemma OnceEarly(task: Config.Task, mb: Mailbox, tmpl: Template, decode: string -> Option<string>,
                  store: WebDav.Store)
    requires !(Reached(task, mb, tmpl) && Prepare(store, RelDir(task.path, task.tags)).value.None?)
    ensures var r := Once(task, mb, tmpl, decode, store);
            && r.result == Empty
            && r.error != Some(TemplateFailed) && r.error != Some(FetchFailed)
            && (r.error == None ==> Delivered(task, mb) == [])
  {
  }

  /** The loop closed by `Finish`, started from an empty result: a completed
      loop tallies every message, a template failure some proper prefix of
      them, and a fetch error is reported only when the fetch failed. */
  lemma FinishCounts(rules: Rules, st: State, msgs: seq<Option<Message>>, fetchOk: bool)
    requires st.res == Empty
    ensures var r := Finish(Drain(rules, st, msgs), fetchOk);
            && (r.error == None || r.error == Some(FetchFailed)
                ==> Tally(r.result) == ExpectedAll(rules.allowed, rules.recipients, msgs)
                    && r.result.uploaded <= r.result.totalParts)
            && (r.error == Some(TemplateFailed)
                ==> exists k :: 0 <= k < |msgs| && Tally(r.result) == ExpectedAll(rules.allowed, rules.recipients, msgs[..k]))
            && (r.error == Some(FetchFailed) ==> !fetchOk)
  {
    DrainCounts(rules, st, msgs);
    DrainUploadsBounded(rules, st, msgs);
    FinishOfLoop(Drain(rules, st, msgs), fetchOk, rules.allowed, rules.recipients, msgs);
  }

  /** `FinishCounts` for a loop outcome `d` that meets what `DrainCounts` and
      `DrainUploadsBounded` promise from an empty result. */
  lemma FinishOfLoop(d: Step<State>, fetchOk: bool, allowed: set<string>, recipients: seq<string>,
                     msgs: seq<Option<Message>>)
    requires d.Next? ==> Tally(d.s.res) == Plus(Tally(Empty), ExpectedAll(allowed, recipients, msgs))
                         && d.s.res.uploaded - Empty.uploaded <= d.s.res.totalParts - Empty.totalParts
    requires d.Stop? ==> exists k :: 0 <= k < |msgs|
                           && Tally(d.s.res) == Plus(Tally(Empty), ExpectedAll(allowed, recipients, msgs[..k]))
    ensures var r := Finish(d, fetchOk);
            && (r.error == None || r.error == Some(FetchFailed)
                ==> Tally(r.result) == ExpectedAll(allowed, recipients, msgs)
                    && r.result.uploaded <= r.result.totalParts)
            && (r.error == Some(TemplateFailed)
                ==> exists k :: 0 <= k < |msgs| && Tally(r.result) == ExpectedAll(allowed, recipients, msgs[..k]))
            && (r.error == Some(FetchFailed) ==> !fetchOk)
  {
    var r := Finish(d, fetchOk);
    if d.Stop? {
      var k :| 0 <= k < |msgs| && Tally(d.s.res) == Plus(Tally(Empty), ExpectedAll(allowed, recipients, msgs[..k]));
      var c := ExpectedAll(allowed, recipients, msgs[..k]);
      FinishTally(d, fetchOk, c);
      assert r.error == Some(TemplateFailed) && Tally(r.result) == c;
    } else {
      var c := ExpectedAll(allowed, recipients, msgs);
      FinishTally(d, fetchOk, c);
      assert r.error != Some(TemplateFailed) && Tally(r.result) == c && r.result == d.s.res;
    }
  }

  /** `Finish` of a loop outcome that added `c` to an empty result: the
      result carries `c`, the error is a template failure exactly when the
      loop stopped, and a fetch error only when the fetch failed. */
  lemma FinishTally(d: Step<State>, fetchOk: bool, c: Counts)
    requires Tally(d.s.res) == Plus(Tally(Empty), c)
    ensures var r := Finish(d, fetchOk);
            && Tally(r.result) == c && r.result == d.s.res
            && (r.error == Some(TemplateFailed) <==> d.Stop?)
            && (r.error == Some(FetchFailed) ==> !fetchOk)
  {
    PlusZero(c);
  }

  /** When the message loop completes (the cycle succeeds, or only the fetch
      reports an error) the counters are exactly what the delivered messages
      determine and `Uploaded` is at most `TotalParts`; after a template
      failure they are what some proper prefix of the messages determines. */
  lemma OnceCounts(task: Config.Task, mb: Mailbox, tmpl: Template, decode: string -> Option<string>,
                   store: WebDav.Store)
    ensures var r := Once(task, mb, tmpl, decode, store);
            var allowed := AllowedExtensions(task.filter.extensions);
            var msgs := Delivered(task, mb);
            && (r.error == None || r.error == Some(FetchFailed)
                ==> Tally(r.result) == ExpectedAll(allowed, task.filter.recipients, msgs)
                    && r.result.uploaded <= r.result.totalParts)
            && (r.error == Some(TemplateFailed)
                ==> exists k :: 0 <= k < |msgs| && Tally(r.result) == ExpectedAll(allowed, task.filter.recipients, msgs[..k]))
            && (r.error == Some(FetchFailed) ==> Found(task, mb) && !mb.fetch(Search(task, mb).value).ok)
  {
    var rules := RulesOf(task, tmpl, decode, store);
    var mk := Prepare(store, rules.relDir);
    if Reached(task, mb, tmpl) && mk.value.None? {
      OnceLoop(task, mb, tmpl, decode, store);
      FinishCounts(rules, State(Empty, mk.trace), Delivered(task, mb), mb.fetch(Search(task, mb).value).ok);
    } else {
      OnceEarly(task, mb, tmpl, decode, store);
    }
  }

  /** At most one UID is queued per message with attachments, each the UID
      of a delivered message, and none at all when marking is off. */
  lemma OnceSeen(task: Config.Task, mb: Mailbox, tmpl: Template, decode: string -> Option<string>,
                 store: WebDav.Store)
    ensures var r := Once(task, mb, tmpl, decode, store);
            && |r.result.seenToMark| <= r.result.msgsWithAttachments
            && (forall u :: u in r.result.seenToMark ==> u in UidsOf(Delivered(task, mb)))
            && (!task.markSeen ==> r.result.seenToMark == [])
  {
    var rules := RulesOf(task, tmpl, decode, store);
    var mk := Prepare(store, rules.relDir);
    if Reached(task, mb, tmpl) && mk.value.None? {
      OnceLoop(task, mb, tmpl, decode, store);
      FinishSeen(rules, State(Empty, mk.trace), Delivered(task, mb), mb.fetch(Search(task, mb).value).ok);
    } else {
      OnceEarly(task, mb, tmpl, decode, store);
    }
  }

  /** The loop closed by `Finish`, started from an empty result, queues at
      most one delivered UID per message with attachments, and none when
      marking is off. */
  lemma FinishSeen(rules: Rules, st: State, msgs: seq<Option<Message>>, fetchOk: bool)
    requires st.res == Empty
    ensures var r := Finish(Drain(rules, st, msgs), fetchOk);
            && |r.result.seenToMark| <= r.result.msgsWithAttachments
            && (forall u :: u in r.result.seenToMark ==> u in UidsOf(msgs))
            && (!rules.markSeen ==> r.result.seenToMark == [])
  {
    DrainSeen(rules, st, msgs);
    var r := Drain(rules, st, msgs);
    forall u | u in r.s.res.seenToMark ensures u in UidsOf(msgs) {
      var k :| 0 <= k < |r.s.res.seenToMark| && r.s.res.seenToMark[k] == u;
    }
  }

  // ------------------------------------------------------------ flagging

  /** The IMAP side of `MarkSeen`: whether the session comes up and whether
      the flag update succeeds. */
  datatype FlagSession = FlagSession(sessionOk: bool, storeOk: bool)

  datatype FlagOutcome = FlagOutcome(connected: bool, ok: bool)

  /** `MarkSeen`: an empty list succeeds without connecting; otherwise the
      session is opened and the call succeeds iff the session and the flag
      update both do. */
  function MarkSeen(session: FlagSession, uids: seq<Uid>): (r: FlagOutcome)
    ensures uids == [] ==> r == FlagOutcome(false, true)
    ensures uids != [] ==> r.connected && (r.ok <==> session.sessionOk && session.storeOk)
  {
    if |uids| == 0 then FlagOutcome(false, true)
    else FlagOutcome(true, session.sessionOk && session.storeOk)
  }
}
