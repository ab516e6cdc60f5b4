/**
 * The selection, de-duplication and commit logic of `main`: for each issuer,
 * gather the mailbox's matches for its subject variants, keep the messages
 * that carry a net distribution and have not been reported before, pick the
 * latest one, and finally report the picks newest first and remember their
 * Message-IDs.
 *
 * The mailbox is a value: a search function from IMAP criteria to a status
 * and the matching ids, and a fetch function from an id to the message as
 * the rest of `main` sees it (its parsed date, its Message-ID header, its
 * decoded subject and its body text).
 */
module Selection {
  import opened Wrappers
  import opened PyStr
  import opened Extractor
  import Pattern

  /** An IMAP message id, as `messages[0].split()` yields it. */
  type Uid = string

  /** What `mail.search` returns: a status and the ids of the matching messages. */
  datatype SearchReply = SearchReply(status: string, ids: seq<Uid>)

  /** A fetched message: its date as a timestamp, its Message-ID header, its decoded subject, its body. */
  datatype Message = Message(date: int, messageIdHeader: string, subject: string, body: string)

  /** The mailbox as the scan uses it. */
  datatype Mailbox = Mailbox(search: string -> SearchReply, fetch: Uid -> Message)

  /** An issuer and the subject variants searched for it. */
  datatype Issuer = Issuer(company: string, variants: seq<string>)

  /** One row of the notification: company, subject, date and Message-ID of the pick. */
  datatype Record = Record(company: string, subject: string, date: int, messageId: string)

  /** A message that qualifies for reporting, as `emails_info` holds it. */
  datatype Candidate = Candidate(uid: Uid, date: int, subject: string, netDist: string, messageId: string)

  /** What a run ends with: nothing to report, or the report rows and the ids to save. */
  datatype Outcome = NothingNew | Notified(report: seq<Record>, saved: set<string>)

  /** The issuers and subject variants the notifier watches, in order. */
  const SubjectsToSearch: seq<Issuer> := [
    Issuer("IndiGrid", ["IndiGrid Distribution Advice"]),
    Issuer("Embassy REIT", ["Embassy REIT Distribution Advice", "Embassy Office Parks REIT", "Embassy REIT"]),
    Issuer("Bharat Highways", ["Bharat Highways Invit"]),
    Issuer("Capital Infra", ["INDUSINVIT"]),
    Issuer("Nexus Trust REIT", ["Nexus Select Trust ReIT - Distribution Advice", "NEXUS SELECT TRUST", "Nexus Select Trust"])
  ]

  /** The watched issuers have distinct names, as the keys of a dictionary do. */
  lemma SubjectsToSearchDistinct()
    ensures DistinctIssuers(SubjectsToSearch)
  {
  }

  /** No two issuers share a name. */
  predicate DistinctIssuers(issuers: seq<Issuer>)
  {
    forall a, b :: 0 <= a < b < |issuers| ==> issuers[a].company != issuers[b].company
  }

  // ---------------------------------------------------------------------
  // Searching
  // ---------------------------------------------------------------------

  /** The IMAP search criteria for one subject variant. */
  function SubjectCriteria(subj: string): (c: string)
    ensures |c| == |subj| + 12
    ensures c[..10] == "(SUBJECT \"" && c[10..|c| - 2] == subj && c[|c| - 2..] == "\")"
  {
    "(SUBJECT \"" + subj + "\")"
  }

  /** Different variants are searched with different criteria. */
  lemma SubjectCriteriaInjective(a: string, b: string)
    requires SubjectCriteria(a) == SubjectCriteria(b)
    ensures a == b
  {
    var ca := SubjectCriteria(a);
    assert a == ca[10..|ca| - 2];
    assert b == SubjectCriteria(b)[10..|SubjectCriteria(b)| - 2];
  }

  /** The ids the search for variants yields, in order: replies whose status is not OK contribute nothing. */
  function SearchedIds(mb: Mailbox, variants: seq<string>): (ids: seq<Uid>)
    ensures forall u :: u in ids ==> exists i :: 0 <= i < |variants| && u in mb.search(SubjectCriteria(variants[i])).ids
  {
    if variants == [] then []
    else
      var reply := mb.search(SubjectCriteria(variants[|variants| - 1]));
      SearchedIds(mb, variants[..|variants| - 1]) + (if reply.status == "OK" then reply.ids else [])
  }

  /** An id is gathered exactly when some OK reply for some variant lists it. */
  lemma {:induction false} SearchedIdsMembers(mb: Mailbox, variants: seq<string>, u: Uid)
    ensures u in SearchedIds(mb, variants) <==>
      exists i :: 0 <= i < |variants| && mb.search(SubjectCriteria(variants[i])).status == "OK"
        && u in mb.search(SubjectCriteria(variants[i])).ids
  {
    if variants != [] {
      var init := variants[..|variants| - 1];
      SearchedIdsMembers(mb, init, u);
      assert forall i :: 0 <= i < |init| ==> init[i] == variants[i];
    }
  }

  /** The loop over the variants: search each one, skip a reply that is not OK, extend the list. */
  method GatherIds(mb: Mailbox, variants: seq<string>) returns (ids: seq<Uid>)
    ensures ids == SearchedIds(mb, variants)
  {
    ids := [];
    for i := 0 to |variants|
      invariant ids == SearchedIds(mb, variants[..i])
    {
      assert variants[..i + 1][..i] == variants[..i];
      var reply := mb.search(SubjectCriteria(variants[i]));
      if reply.status != "OK" {
        continue;
      }
      ids := ids + reply.ids;
    }
    assert variants[..|variants|] == variants;
  }

  /** `list(set(all_email_ids))`: each gathered id once. */
  ghost function Pool(mb: Mailbox, issuer: Issuer): set<Uid>
  {
    set u | u in SearchedIds(mb, issuer.variants)
  }

  // ---------------------------------------------------------------------
  // Candidates
  // ---------------------------------------------------------------------

  /** A stand-in for the net-distribution extractor, so that the selection logic can be stated once. */
  type NetDistFn = string -> Option<string>

  /** extract is `extract_total_net_distribution`: it agrees with Extracted on every body. */
  ghost predicate IsExtractor(extract: NetDistFn)
  {
    forall b {:trigger Extracted(b)} :: extract(b) == Extracted(b)
  }

  /**
   * The message with id u as a candidate: kept when its body yields a net
   * distribution and its Message-ID, without angle brackets, was not reported
   * in an earlier run.
   */
  function CandidateOf(mb: Mailbox, extract: NetDistFn, seen: set<string>, u: Uid): (c: Option<Candidate>)
    ensures c.Some? ==> c.value.uid == u && c.value.date == mb.fetch(u).date && c.value.subject == mb.fetch(u).subject
    ensures c.Some? ==> c.value.messageId == StripAngles(mb.fetch(u).messageIdHeader) && c.value.messageId !in seen
  {
    var msg := mb.fetch(u);
    var netDist := extract(msg.body);
    if netDist.Some? && netDist.value != [] then
      var messageId := StripAngles(msg.messageIdHeader);
      if messageId in seen then None
      else Some(Candidate(u, msg.date, msg.subject, netDist.value, messageId))
    else None
  }

  /** A candidate is the message with that id, carrying a net distribution and a Message-ID not seen before. */
  lemma CandidateOfFacts(mb: Mailbox, extract: NetDistFn, seen: set<string>, u: Uid)
    ensures CandidateOf(mb, extract, seen, u).Some? <==>
      extract(mb.fetch(u).body).Some? && extract(mb.fetch(u).body).value != []
        && StripAngles(mb.fetch(u).messageIdHeader) !in seen
    ensures CandidateOf(mb, extract, seen, u).Some? ==>
      && CandidateOf(mb, extract, seen, u).value.uid == u
      && CandidateOf(mb, extract, seen, u).value.date == mb.fetch(u).date
      && CandidateOf(mb, extract, seen, u).value.subject == mb.fetch(u).subject
      && CandidateOf(mb, extract, seen, u).value.messageId == StripAngles(mb.fetch(u).messageIdHeader)
      && CandidateOf(mb, extract, seen, u).value.netDist == extract(mb.fetch(u).body).value
      && CandidateOf(mb, extract, seen, u).value.messageId !in seen
  {
  }

  /**
   * With the real extractor, the truthiness test drops nothing: a message is
   * a candidate exactly when its body yields a net distribution and its
   * Message-ID is new, and that net distribution has the shape `[\d,]+\.\d+`.
   */
  lemma CandidateNetDist(mb: Mailbox, extract: NetDistFn, seen: set<string>, u: Uid)
    requires IsExtractor(extract)
    ensures CandidateOf(mb, extract, seen, u).Some? <==>
      Extracted(mb.fetch(u).body).Some? && StripAngles(mb.fetch(u).messageIdHeader) !in seen
    ensures CandidateOf(mb, extract, seen, u).Some? ==> Pattern.IsAmount(CandidateOf(mb, extract, seen, u).value.netDist)
  {
    var b := mb.fetch(u).body;
    ExtractedIsAmount(b);
    assert extract(b) == Extracted(b);
  }

  /**
   * info lists each candidate among the ids in done exactly once, and
   * nothing else.
   */
  ghost predicate Listed(mb: Mailbox, extract: NetDistFn, seen: set<string>, done: set<Uid>, info: seq<Candidate>)
  {
    && (forall i :: 0 <= i < |info| ==> info[i].uid in done && CandidateOf(mb, extract, seen, info[i].uid) == Some(info[i]))
    && (forall i, j :: 0 <= i < j < |info| ==> info[i].uid != info[j].uid)
    && (forall u :: u in done && CandidateOf(mb, extract, seen, u).Some? ==> CandidateOf(mb, extract, seen, u).value in info)
  }

  /** Passing over a message that is no candidate keeps the listing complete. */
  lemma ListedSkip(mb: Mailbox, extract: NetDistFn, seen: set<string>, done: set<Uid>, info: seq<Candidate>, u: Uid)
    requires Listed(mb, extract, seen, done, info) && CandidateOf(mb, extract, seen, u).None?
    ensures Listed(mb, extract, seen, done + {u}, info)
  {
  }

  /** Appending the candidate of a message not yet looked at keeps the listing complete. */
  lemma ListedAdd(mb: Mailbox, extract: NetDistFn, seen: set<string>, done: set<Uid>, info: seq<Candidate>, u: Uid)
    requires Listed(mb, extract, seen, done, info) && u !in done && CandidateOf(mb, extract, seen, u).Some?
    ensures Listed(mb, extract, seen, done + {u}, info + [CandidateOf(mb, extract, seen, u).value])
  {
    var c := CandidateOf(mb, extract, seen, u).value;
    var info' := info + [c];
    forall i | 0 <= i < |info'| ensures info'[i].uid in done + {u} && CandidateOf(mb, extract, seen, info'[i].uid) == Some(info'[i]) {
      if i < |info| {
        assert info'[i] == info[i];
      }
    }
    forall x | x in done + {u} && CandidateOf(mb, extract, seen, x).Some? ensures CandidateOf(mb, extract, seen, x).value in info' {
      if x != u {
        assert CandidateOf(mb, extract, seen, x).value in info;
      } else {
        assert info'[|info|] == c;
      }
    }
  }

  /**
   * The loop over the pool: fetch each message once, in an order the set
   * leaves open, and keep the candidates. The result lists every candidate
   * of the pool exactly once.
   */
  method CollectCandidates(mb: Mailbox, extract: NetDistFn, seen: set<string>, pool: set<Uid>) returns (info: seq<Candidate>)
    requires IsExtractor(extract)
    ensures forall i :: 0 <= i < |info| ==> info[i].uid in pool && CandidateOf(mb, extract, seen, info[i].uid) == Some(info[i])
    ensures forall i, j :: 0 <= i < j < |info| ==> info[i].uid != info[j].uid
    ensures forall u :: u in pool && CandidateOf(mb, extract, seen, u).Some? ==> CandidateOf(mb, extract, seen, u).value in info
  {
    info := [];
    var rest := pool;
    while rest != {}
      invariant rest <= pool
      invariant Listed(mb, extract, seen, pool - rest, info)
      decreases rest
    {
      var u :| u in rest;
      ghost var done := pool - rest;
      rest := rest - {u};
      assert pool - rest == done + {u};
      var msg := mb.fetch(u);
      var netDist := ExtractTotalNetDistribution(msg.body);
      assert netDist == extract(msg.body);
      if netDist.Some? && netDist.value != [] {
        var messageId := StripAngles(msg.messageIdHeader);
        if messageId in seen {
          ListedSkip(mb, extract, seen, done, info, u);
          continue;
        }
        ListedAdd(mb, extract, seen, done, info, u);
        info := info + [Candidate(u, msg.date, msg.subject, netDist.value, messageId)];
      } else {
        ListedSkip(mb, extract, seen, done, info, u);
      }
    }
    assert pool - rest == pool;
  }

  /**
   * `emails_info.sort(key=date, reverse=True)[0]`: the stable descending
   * sort puts first the earliest-listed candidate of the latest date.
   */
  function FirstLatest(info: seq<Candidate>): (k: nat)
    requires info != []
    ensures k < |info|
    ensures forall i :: 0 <= i < |info| ==> info[i].date <= info[k].date
    ensures forall i :: 0 <= i < k ==> info[i].date < info[k].date
  {
    if |info| == 1 then 0
    else
      var k := FirstLatest(info[..|info| - 1]);
      if info[|info| - 1].date > info[k].date then |info| - 1 else k
  }

  // ---------------------------------------------------------------------
  // One issuer
  // ---------------------------------------------------------------------

  /** Some message of the issuer's pool is a candidate. */
  ghost predicate HasNew(mb: Mailbox, extract: NetDistFn, seen: set<string>, issuer: Issuer)
  {
    exists u :: u in Pool(mb, issuer) && CandidateOf(mb, extract, seen, u).Some?
  }

  /** The row reported for a candidate of an issuer. */
  function RecordOf(company: string, c: Candidate): Record
  {
    Record(company, c.subject, c.date, c.messageId)
  }

  /**
   * rec is a possible pick for the issuer: the row of a candidate of its
   * pool whose date no other candidate of the pool exceeds.
   */
  ghost predicate IsSelection(mb: Mailbox, extract: NetDistFn, seen: set<string>, issuer: Issuer, rec: Record)
  {
    exists u :: u in Pool(mb, issuer) && CandidateOf(mb, extract, seen, u).Some?
      && rec == RecordOf(issuer.company, CandidateOf(mb, extract, seen, u).value)
      && forall u' :: u' in Pool(mb, issuer) && CandidateOf(mb, extract, seen, u').Some? ==>
        CandidateOf(mb, extract, seen, u').value.date <= CandidateOf(mb, extract, seen, u).value.date
  }

  /** A pick is a new message named after its issuer. */
  lemma SelectionFacts(mb: Mailbox, extract: NetDistFn, seen: set<string>, issuer: Issuer, rec: Record)
    requires IsSelection(mb, extract, seen, issuer, rec)
    ensures rec.company == issuer.company && rec.messageId !in seen
    ensures HasNew(mb, extract, seen, issuer)
  {
    var u :| u in Pool(mb, issuer) && CandidateOf(mb, extract, seen, u).Some?
      && rec == RecordOf(issuer.company, CandidateOf(mb, extract, seen, u).value)
      && forall u' :: u' in Pool(mb, issuer) && CandidateOf(mb, extract, seen, u').Some? ==>
        CandidateOf(mb, extract, seen, u').value.date <= CandidateOf(mb, extract, seen, u).value.date;
    CandidateOfFacts(mb, extract, seen, u);
  }

  /**
   * The body of the loop over the issuers: nothing when no message of the
   * issuer's pool is a candidate, and otherwise the row of a latest one.
   */
  method ProcessIssuer(mb: Mailbox, extract: NetDistFn, seen: set<string>, issuer: Issuer) returns (rec: Option<Record>)
    requires IsExtractor(extract)
    ensures PickedFor(mb, extract, seen, issuer, rec)
  {
    var ids := GatherIds(mb, issuer.variants);
    var pool := set u | u in ids;
    if pool == {} {
      return None;
    }
    var info := CollectCandidates(mb, extract, seen, pool);
    if info == [] {
      return None;
    }
    var k := FirstLatest(info);
    var latest := info[k];
    rec := Some(RecordOf(issuer.company, latest));
    forall u' | u' in pool && CandidateOf(mb, extract, seen, u').Some?
      ensures CandidateOf(mb, extract, seen, u').value.date <= latest.date
    {
      var c := CandidateOf(mb, extract, seen, u').value;
      var i :| 0 <= i < |info| && info[i] == c;
    }
    assert info[0] in info;
  }

  // ---------------------------------------------------------------------
  // The report
  // ---------------------------------------------------------------------

  /** Rows newest first. */
  predicate SortedByDateDesc(rs: seq<Record>)
  {
    forall a, b :: 0 <= a < b < |rs| ==> rs[a].date >= rs[b].date
  }

  /** No two rows name the same company. */
  predicate DistinctCompanies(rs: seq<Record>)
  {
    forall a, b :: 0 <= a < b < |rs| ==> rs[a].company != rs[b].company
  }

  /** Insert r into rows sorted newest first, keeping them so. */
  function InsertByDate(r: Record, rs: seq<Record>): (out: seq<Record>)
    requires SortedByDateDesc(rs)
    ensures |out| == |rs| + 1
    ensures SortedByDateDesc(out)
    ensures multiset(out) == multiset(rs) + multiset{r}
    ensures out[0] == r || (rs != [] && out[0] == rs[0])
  {
    if rs == [] || rs[0].date <= r.date then [r] + rs
    else
      assert rs == [rs[0]] + rs[1..];
      [rs[0]] + InsertByDate(r, rs[1..])
  }

  /** `df.sort_values('Date', ascending=False)`: the rows newest first, none lost and none added. */
  function SortByDateDesc(rs: seq<Record>): (out: seq<Record>)
    ensures SortedByDateDesc(out)
    ensures multiset(out) == multiset(rs)
  {
    if rs == [] then []
    else
      assert rs == [rs[0]] + rs[1..];
      InsertByDate(rs[0], SortByDateDesc(rs[1..]))
  }

  /** Reordering rows keeps their companies distinct. */
  lemma {:induction false} InsertKeepsDistinct(r: Record, rs: seq<Record>)
    requires SortedByDateDesc(rs) && DistinctCompanies(rs)
    requires forall x :: x in rs ==> x.company != r.company
    ensures DistinctCompanies(InsertByDate(r, rs))
  {
    if !(rs == [] || rs[0].date <= r.date) {
      var tail := InsertByDate(r, rs[1..]);
      InsertKeepsDistinct(r, rs[1..]);
      forall x | x in tail ensures x.company != rs[0].company {
        InsertMembers(r, rs[1..], x);
      }
    }
  }

  /** The rows after an insertion are the old rows and the inserted one. */
  lemma InsertMembers(r: Record, rs: seq<Record>, x: Record)
    requires SortedByDateDesc(rs)
    ensures x in InsertByDate(r, rs) <==> x in rs || x == r
  {
    assert x in InsertByDate(r, rs) <==> x in multiset(InsertByDate(r, rs));
    assert x in rs <==> x in multiset(rs);
  }

  /** Sorting keeps the companies of the rows distinct. */
  lemma {:induction false} SortKeepsDistinct(rs: seq<Record>)
    requires DistinctCompanies(rs)
    ensures DistinctCompanies(SortByDateDesc(rs))
  {
    if rs != [] {
      var sorted := SortByDateDesc(rs[1..]);
      SortKeepsDistinct(rs[1..]);
      forall x | x in sorted ensures x.company != rs[0].company {
        assert x in multiset(sorted);
        assert x in multiset(rs[1..]);
      }
      InsertKeepsDistinct(rs[0], sorted);
    }
  }

  /** The Message-IDs of the rows. */
  function IdsOf(rs: seq<Record>): (ids: set<string>)
    ensures forall r :: r in rs ==> r.messageId in ids
    ensures forall id :: id in ids ==> exists r :: r in rs && r.messageId == id
  {
    set r | r in rs :: r.messageId
  }

  /** Appending a row adds its Message-ID and nothing else. */
  lemma IdsOfSnoc(rs: seq<Record>, r: Record)
    ensures IdsOf(rs + [r]) == IdsOf(rs) + {r.messageId}
  {
  }

  /** The link to a message in the web mailbox, as the notification puts it behind the subject. */
  function DeepLink(messageId: string): (link: string)
    ensures |link| == |LinkPrefix| + |messageId|
  {
    LinkPrefix + messageId
  }

  const LinkPrefix: string := "https://mail.google.com/mail/u/0/#search/rfc822msgid:"

  /** The Message-ID a deep link points to, if it is one. */
  function LinkTarget(link: string): Option<string>
  {
    if |LinkPrefix| <= |link| && link[..|LinkPrefix|] == LinkPrefix then Some(link[|LinkPrefix|..]) else None
  }

  /** A deep link leads back to its Message-ID, so different messages get different links. */
  lemma DeepLinkRoundTrip(messageId: string)
    ensures LinkTarget(DeepLink(messageId)) == Some(messageId)
  {
    assert DeepLink(messageId)[..|LinkPrefix|] == LinkPrefix;
  }

  /** Different Message-IDs give different links. */
  lemma DeepLinkInjective(a: string, b: string)
    requires DeepLink(a) == DeepLink(b)
    ensures a == b
  {
    DeepLinkRoundTrip(a);
    DeepLinkRoundTrip(b);
  }

  // ---------------------------------------------------------------------
  // The run
  // ---------------------------------------------------------------------

  /** rec is what processing the issuer may yield: nothing without a new message, else a pick. */
  ghost predicate PickedFor(mb: Mailbox, extract: NetDistFn, seen: set<string>, issuer: Issuer, rec: Option<Record>)
  {
    && (rec.None? <==> !HasNew(mb, extract, seen, issuer))
    && (rec.Some? ==> IsSelection(mb, extract, seen, issuer, rec.value) && rec.value.company == issuer.company)
  }

  /** The rows of the issuers that yielded one, in issuer order: the list `data` of `main`. */
  function Rows(recs: seq<Option<Record>>): (rows: seq<Record>)
    ensures forall r :: r in rows ==> Some(r) in recs
  {
    if recs == [] then []
    else
      var last := recs[|recs| - 1];
      Rows(recs[..|recs| - 1]) + (if last.Some? then [last.value] else [])
  }

  /** Recording what one more issuer yielded appends its row, if any, to `data`. */
  lemma RowsSnoc(recs: seq<Option<Record>>, rec: Option<Record>)
    ensures Rows(recs + [rec]) == Rows(recs) + (if rec.Some? then [rec.value] else [])
  {
    assert (recs + [rec])[..|recs|] == recs;
  }

  /** A row is listed exactly when some issuer yielded it. */
  lemma {:induction false} RowsMembers(recs: seq<Option<Record>>, r: Record)
    ensures r in Rows(recs) <==> exists k :: 0 <= k < |recs| && recs[k] == Some(r)
  {
    if recs != [] {
      var init := recs[..|recs| - 1];
      RowsMembers(init, r);
      assert forall k :: 0 <= k < |init| ==> init[k] == recs[k];
    }
  }

  /** There are no rows exactly when no issuer yielded one. */
  lemma {:induction false} RowsEmpty(recs: seq<Option<Record>>)
    ensures Rows(recs) == [] <==> forall k :: 0 <= k < |recs| ==> recs[k].None?
  {
    if recs != [] {
      var init := recs[..|recs| - 1];
      RowsEmpty(init);
      assert forall k :: 0 <= k < |init| ==> init[k] == recs[k];
    }
  }

  /** Rows yielded for issuers of distinct names name distinct companies. */
  lemma {:induction false} RowsDistinct(recs: seq<Option<Record>>)
    requires forall a, b :: 0 <= a < b < |recs| && recs[a].Some? && recs[b].Some? ==>
      recs[a].value.company != recs[b].value.company
    ensures DistinctCompanies(Rows(recs))
  {
    if recs != [] {
      var init := recs[..|recs| - 1];
      var last := recs[|recs| - 1];
      assert forall k :: 0 <= k < |init| ==> init[k] == recs[k];
      RowsDistinct(init);
      if last.Some? {
        var rows := Rows(init);
        forall a | 0 <= a < |rows| ensures rows[a].company != last.value.company {
          RowsMembers(init, rows[a]);
        }
      }
    }
  }

  /** Each of the first |recs| issuers yielded what processing it may yield. */
  ghost predicate AllPicked(mb: Mailbox, extract: NetDistFn, seen: set<string>, issuers: seq<Issuer>, recs: seq<Option<Record>>)
  {
    |recs| <= |issuers| && forall k :: 0 <= k < |recs| ==> PickedFor(mb, extract, seen, issuers[k], recs[k])
  }

  /** Recording what the next issuer yielded keeps AllPicked. */
  lemma AllPickedSnoc(mb: Mailbox, extract: NetDistFn, seen: set<string>, issuers: seq<Issuer>, recs: seq<Option<Record>>, rec: Option<Record>)
    requires AllPicked(mb, extract, seen, issuers, recs) && |recs| < |issuers|
    requires PickedFor(mb, extract, seen, issuers[|recs|], rec)
    ensures AllPicked(mb, extract, seen, issuers, recs + [rec])
  {
    var recs' := recs + [rec];
    forall k | 0 <= k < |recs'| ensures PickedFor(mb, extract, seen, issuers[k], recs'[k]) {
      if k < |recs| {
        assert recs'[k] == recs[k];
      }
    }
  }

  /**
   * The report of a run: newest first, one row per company; every row is a
   * pick for some issuer, not reported before; every issuer with a new
   * message has a row.
   */
  ghost predicate ReportOk(mb: Mailbox, extract: NetDistFn, seen: set<string>, issuers: seq<Issuer>, report: seq<Record>)
  {
    && report != [] && SortedByDateDesc(report) && DistinctCompanies(report)
    && (forall r :: r in report ==> exists i :: 0 <= i < |issuers| && IsSelection(mb, extract, seen, issuers[i], r))
    && (forall i :: 0 <= i < |issuers| && HasNew(mb, extract, seen, issuers[i]) ==>
          exists r :: r in report && r.company == issuers[i].company)
    && (forall r :: r in report ==> r.messageId !in seen)
  }

  /** There are no rows exactly when no issuer has a new message. */
  lemma NoRowsFacts(mb: Mailbox, extract: NetDistFn, seen: set<string>, issuers: seq<Issuer>, recs: seq<Option<Record>>)
    requires AllPicked(mb, extract, seen, issuers, recs) && |recs| == |issuers|
    ensures Rows(recs) == [] <==> forall i :: 0 <= i < |issuers| ==> !HasNew(mb, extract, seen, issuers[i])
  {
    RowsEmpty(recs);
  }

  /** The rows yielded for issuers of distinct names name distinct companies. */
  lemma PickedDistinct(mb: Mailbox, extract: NetDistFn, seen: set<string>, issuers: seq<Issuer>, recs: seq<Option<Record>>)
    requires DistinctIssuers(issuers) && AllPicked(mb, extract, seen, issuers, recs)
    ensures DistinctCompanies(Rows(recs))
  {
    RowsDistinct(recs);
  }

  /** Every row of a report made of the rows of a run is what some issuer yielded. */
  lemma ReportRowsPicked(issuers: seq<Issuer>, recs: seq<Option<Record>>, report: seq<Record>)
    requires |recs| == |issuers| && multiset(report) == multiset(Rows(recs))
    ensures forall r :: r in report ==> exists i :: 0 <= i < |issuers| && recs[i] == Some(r)
  {
    forall r | r in report ensures exists i :: 0 <= i < |issuers| && recs[i] == Some(r) {
      assert r in multiset(report);
      RowsMembers(recs, r);
    }
  }

  /** Every issuer's row is in a report made of the rows of a run. */
  lemma ReportHasRows(issuers: seq<Issuer>, recs: seq<Option<Record>>, report: seq<Record>)
    requires |recs| == |issuers| && multiset(report) == multiset(Rows(recs))
    ensures forall i :: 0 <= i < |issuers| && recs[i].Some? ==> recs[i].value in report
  {
    forall i | 0 <= i < |issuers| && recs[i].Some? ensures recs[i].value in report {
      RowsMembers(recs, recs[i].value);
      assert recs[i].value in multiset(Rows(recs));
    }
  }

  /** Sorting the rows of a run gives a report with the properties ReportOk names. */
  lemma ReportFacts(mb: Mailbox, extract: NetDistFn, seen: set<string>, issuers: seq<Issuer>, recs: seq<Option<Record>>, report: seq<Record>)
    requires AllPicked(mb, extract, seen, issuers, recs) && |recs| == |issuers|
    requires report != [] && SortedByDateDesc(report) && DistinctCompanies(report)
    requires multiset(report) == multiset(Rows(recs))
    ensures ReportOk(mb, extract, seen, issuers, report)
  {
    ReportRowsPicked(issuers, recs, report);
    ReportRowsNew(mb, extract, seen, issuers, recs, report);
    ReportHasRows(issuers, recs, report);
    ReportCovers(mb, extract, seen, issuers, recs, report);
  }

  /** The rows of a run are picks of their issuers and were not reported before. */
  lemma ReportRowsNew(mb: Mailbox, extract: NetDistFn, seen: set<string>, issuers: seq<Issuer>, recs: seq<Option<Record>>, report: seq<Record>)
    requires AllPicked(mb, extract, seen, issuers, recs) && |recs| == |issuers|
    requires forall r :: r in report ==> exists i :: 0 <= i < |issuers| && recs[i] == Some(r)
    ensures forall r :: r in report ==> exists i :: 0 <= i < |issuers| && IsSelection(mb, extract, seen, issuers[i], r)
    ensures forall r :: r in report ==> r.messageId !in seen
  {
    forall r | r in report
      ensures r.messageId !in seen
      ensures exists i :: 0 <= i < |issuers| && IsSelection(mb, extract, seen, issuers[i], r)
    {
      var i :| 0 <= i < |issuers| && recs[i] == Some(r);
      assert PickedFor(mb, extract, seen, issuers[i], recs[i]);
      SelectionFacts(mb, extract, seen, issuers[i], r);
    }
  }

  /** Every issuer with a new message has its row in a report holding every row of the run. */
  lemma ReportCovers(mb: Mailbox, extract: NetDistFn, seen: set<string>, issuers: seq<Issuer>, recs: seq<Option<Record>>, report: seq<Record>)
    requires AllPicked(mb, extract, seen, issuers, recs) && |recs| == |issuers|
    requires forall i :: 0 <= i < |issuers| && recs[i].Some? ==> recs[i].value in report
    ensures forall i :: 0 <= i < |issuers| && HasNew(mb, extract, seen, issuers[i]) ==>
      exists r :: r in report && r.company == issuers[i].company
  {
    forall i | 0 <= i < |issuers| && HasNew(mb, extract, seen, issuers[i])
      ensures exists r :: r in report && r.company == issuers[i].company
    {
      assert PickedFor(mb, extract, seen, issuers[i], recs[i]);
      assert recs[i].value in report;
    }
  }

  /**
   * The state of the issuer loop after the first |recs| issuers: recs holds
   * what each yielded, data their rows and updatedSeen the ids to save.
   */
  ghost predicate Scanned(mb: Mailbox, extract: NetDistFn, seen: set<string>, issuers: seq<Issuer>,
                          recs: seq<Option<Record>>, data: seq<Record>, updatedSeen: set<string>)
  {
    AllPicked(mb, extract, seen, issuers, recs) && data == Rows(recs) && updatedSeen == seen + IdsOf(data)
  }

  /** One turn of the issuer loop keeps its state: the row, if any, is appended and its id added. */
  lemma ScanStep(mb: Mailbox, extract: NetDistFn, seen: set<string>, issuers: seq<Issuer>,
                 recs: seq<Option<Record>>, data: seq<Record>, updatedSeen: set<string>, rec: Option<Record>)
    requires Scanned(mb, extract, seen, issuers, recs, data, updatedSeen) && |recs| < |issuers|
    requires PickedFor(mb, extract, seen, issuers[|recs|], rec)
    ensures rec.None? ==> Scanned(mb, extract, seen, issuers, recs + [rec], data, updatedSeen)
    ensures rec.Some? ==>
      Scanned(mb, extract, seen, issuers, recs + [rec], data + [rec.value], updatedSeen + {rec.value.messageId})
  {
    AllPickedSnoc(mb, extract, seen, issuers, recs, rec);
    RowsStep(seen, recs, data, updatedSeen, rec);
  }

  /** Appending what one more issuer yielded appends its row, if any, to `data` and its id to the ids to save. */
  lemma RowsStep(seen: set<string>, recs: seq<Option<Record>>, data: seq<Record>, updatedSeen: set<string>, rec: Option<Record>)
    requires data == Rows(recs) && updatedSeen == seen + IdsOf(data)
    ensures rec.None? ==> Rows(recs + [rec]) == data
    ensures rec.Some? ==> Rows(recs + [rec]) == data + [rec.value]
    ensures rec.Some? ==> updatedSeen + {rec.value.messageId} == seen + IdsOf(data + [rec.value])
  {
    RowsSnoc(recs, rec);
    if rec.Some? {
      IdsOfSnoc(data, rec.value);
    }
  }

  /**
   * The loop of `main` over the issuers, in order: process each one, append
   * its row to `data` if it yields one, and add the row's Message-ID to the
   * ids to save. recs records what each issuer yielded.
   */
  method ScanIssuers(issuers: seq<Issuer>, mb: Mailbox, extract: NetDistFn, seen: set<string>)
    returns (data: seq<Record>, updatedSeen: set<string>, ghost recs: seq<Option<Record>>)
    requires IsExtractor(extract)
    ensures |recs| == |issuers| && AllPicked(mb, extract, seen, issuers, recs)
    ensures data == Rows(recs)
    ensures updatedSeen == seen + IdsOf(data)
  {
    data := [];
    updatedSeen := seen;
    recs := [];
    for i := 0 to |issuers|
      invariant |recs| == i && Scanned(mb, extract, seen, issuers, recs, data, updatedSeen)
    {
      var rec := ProcessIssuer(mb, extract, seen, issuers[i]);
      ScanStep(mb, extract, seen, issuers, recs, data, updatedSeen, rec);
      recs := recs + [rec];
      if rec.Some? {
        data := data + [rec.value];
        updatedSeen := updatedSeen + {rec.value.messageId};
      }
    }
  }

  /** Sorting keeps the Message-IDs of the rows. */
  lemma SortKeepsIds(rs: seq<Record>)
    ensures IdsOf(SortByDateDesc(rs)) == IdsOf(rs)
  {
    var sorted := SortByDateDesc(rs);
    forall r | r in sorted ensures r in rs {
      assert r in multiset(sorted);
    }
    forall r | r in rs ensures r in sorted {
      assert r in multiset(rs);
    }
  }

  /**
   * `main` with the mailbox abstracted: scan the issuers in order, pick at
   * most one row for each, and, when there is any row, report the rows newest
   * first and save the seen ids together with the ids of the picks. Only the
   * ids seen before the run exclude a message, so a message found under two
   * issuers can be picked for both (see SharedPickReportedTwice).
   */
  method RunScan(issuers: seq<Issuer>, mb: Mailbox, extract: NetDistFn, seen: set<string>) returns (out: Outcome)
    requires DistinctIssuers(issuers) && IsExtractor(extract)
    ensures out.NothingNew? <==> forall i :: 0 <= i < |issuers| ==> !HasNew(mb, extract, seen, issuers[i])
    ensures out.Notified? ==> ReportOk(mb, extract, seen, issuers, out.report)
    ensures out.Notified? ==> out.saved == seen + IdsOf(out.report)
  {
    var data, updatedSeen, recs := ScanIssuers(issuers, mb, extract, seen);
    NoRowsFacts(mb, extract, seen, issuers, recs);
    if data == [] {
      return NothingNew;
    }
    var report := SortByDateDesc(data);
    PickedDistinct(mb, extract, seen, issuers, recs);
    SortKeepsDistinct(data);
    SortKeepsIds(data);
    ReportFacts(mb, extract, seen, issuers, recs, report);
    out := Notified(report, updatedSeen);
  }

  /** u is the one message of the issuer's pool that is a candidate. */
  ghost predicate OnlyCandidate(mb: Mailbox, extract: NetDistFn, seen: set<string>, issuer: Issuer, u: Uid)
  {
    && u in Pool(mb, issuer) && CandidateOf(mb, extract, seen, u).Some?
    && forall v :: v in Pool(mb, issuer) && CandidateOf(mb, extract, seen, v).Some? ==> v == u
  }

  /** In a report, the row of an issuer whose only candidate is u carries u's Message-ID. */
  lemma OnlyCandidateRow(mb: Mailbox, extract: NetDistFn, seen: set<string>, issuers: seq<Issuer>,
                         report: seq<Record>, i: nat, u: Uid)
    requires DistinctIssuers(issuers) && ReportOk(mb, extract, seen, issuers, report)
    requires i < |issuers| && OnlyCandidate(mb, extract, seen, issuers[i], u)
    ensures exists a :: (0 <= a < |report| && report[a].company == issuers[i].company
      && report[a].messageId == CandidateOf(mb, extract, seen, u).value.messageId)
  {
    assert HasNew(mb, extract, seen, issuers[i]);
    var r :| r in report && r.company == issuers[i].company;
    var k :| 0 <= k < |issuers| && IsSelection(mb, extract, seen, issuers[k], r);
    SelectionFacts(mb, extract, seen, issuers[k], r);
    assert k == i;
    OnlySelection(mb, extract, seen, issuers[i], r, u);
    var a :| 0 <= a < |report| && report[a] == r;
  }

  /** The only pick an issuer whose only candidate is u can yield is the row of u. */
  lemma OnlySelection(mb: Mailbox, extract: NetDistFn, seen: set<string>, issuer: Issuer, r: Record, u: Uid)
    requires IsSelection(mb, extract, seen, issuer, r) && OnlyCandidate(mb, extract, seen, issuer, u)
    ensures r == RecordOf(issuer.company, CandidateOf(mb, extract, seen, u).value)
  {
    var v :| v in Pool(mb, issuer) && CandidateOf(mb, extract, seen, v).Some?
      && r == RecordOf(issuer.company, CandidateOf(mb, extract, seen, v).value)
      && forall u' :: u' in Pool(mb, issuer) && CandidateOf(mb, extract, seen, u').Some? ==>
        CandidateOf(mb, extract, seen, u').value.date <= CandidateOf(mb, extract, seen, v).value.date;
    assert v == u;
  }

  /**
   * The seen test uses only the ids seen before the run, so a message that
   * is the only candidate in the pools of two issuers is reported twice:
   * two rows, one per issuer, with the same Message-ID.
   */
  lemma SharedPickReportedTwice(mb: Mailbox, extract: NetDistFn, seen: set<string>, issuers: seq<Issuer>,
                                report: seq<Record>, i: nat, j: nat, u: Uid)
    requires DistinctIssuers(issuers) && ReportOk(mb, extract, seen, issuers, report)
    requires i < j < |issuers|
    requires OnlyCandidate(mb, extract, seen, issuers[i], u) && OnlyCandidate(mb, extract, seen, issuers[j], u)
    ensures exists a, b :: (0 <= a < |report| && 0 <= b < |report| && a != b
      && report[a].messageId == CandidateOf(mb, extract, seen, u).value.messageId
      && report[b].messageId == CandidateOf(mb, extract, seen, u).value.messageId)
  {
    OnlyCandidateRow(mb, extract, seen, issuers, report, i, u);
    OnlyCandidateRow(mb, extract, seen, issuers, report, j, u);
    var a :| 0 <= a < |report| && report[a].company == issuers[i].company
      && report[a].messageId == CandidateOf(mb, extract, seen, u).value.messageId;
    var b :| 0 <= b < |report| && report[b].company == issuers[j].company
      && report[b].messageId == CandidateOf(mb, extract, seen, u).value.messageId;
    assert issuers[i].company != issuers[j].company;
  }

  /** The run of `main` itself: the watched issuers and the real extractor. */
  method NotifierRun(mb: Mailbox, seen: set<string>) returns (out: Outcome)
    ensures out.NothingNew? <==> forall i :: 0 <= i < |SubjectsToSearch| ==> !HasNew(mb, Extracted, seen, SubjectsToSearch[i])
    ensures out.Notified? ==> ReportOk(mb, Extracted, seen, SubjectsToSearch, out.report)
    ensures out.Notified? ==> out.saved == seen + IdsOf(out.report)
  {
    SubjectsToSearchDistinct();
    out := RunScan(SubjectsToSearch, mb, Extracted, seen);
  }
}
