/**
 * The decisions `send_email_alert` makes before it renders and sends the
 * message: nothing is sent for an empty list; the envelope recipients are the
 * sender and the comma-separated addresses, sorted and without repeats; the
 * subject names the largest Kp; the periods are sorted by start, stably and
 * in place, and listed in that order.
 */
module Alert {
  import opened Wrappers
  import opened Text
  import opened Calendar
  import opened Forecast

  // ---------------------------------------------------------------------------
  // Recipients

  /** `[e.strip() for e in parts if e.strip()]`. */
  function Addresses(parts: seq<string>): (r: seq<string>)
    ensures |r| <= |parts|
  {
    if parts == [] then []
    else
      var e := Strip(parts[|parts| - 1]);
      Addresses(parts[..|parts| - 1]) + (if e != [] then [e] else [])
  }

  /** The BCC list: the stripped, non-empty comma-separated entries, in order. */
  function BccList(recipients: string): seq<string>
  {
    Addresses(SplitOn(recipients, ','))
  }

  /** An address is kept exactly when it is some entry, stripped, and not empty. */
  lemma {:induction false} AddressesSpec(parts: seq<string>, e: string)
    ensures e in Addresses(parts) <==> e != [] && exists k :: 0 <= k < |parts| && Strip(parts[k]) == e
  {
    if parts != [] {
      var init := parts[..|parts| - 1];
      AddressesSpec(init, e);
      if e != [] && exists k :: 0 <= k < |parts| && Strip(parts[k]) == e {
        var k :| 0 <= k < |parts| && Strip(parts[k]) == e;
        if k < |parts| - 1 {
          assert init[k] == parts[k];
        }
      }
    }
  }

  /** Python's `<` on `str`: the first differing character decides, and a proper prefix comes first. */
  predicate LexLess(a: string, b: string)
    decreases |a|
  {
    if a == [] then b != []
    else if b == [] then false
    else if a[0] != b[0] then a[0] < b[0]
    else LexLess(a[1..], b[1..])
  }

  lemma {:induction false} LexIrreflexive(a: string)
    ensures !LexLess(a, a)
  {
    if a != [] {
      LexIrreflexive(a[1..]);
    }
  }

  lemma {:induction false} LexTransitive(a: string, b: string, c: string)
    requires LexLess(a, b) && LexLess(b, c)
    ensures LexLess(a, c)
    decreases |a|
  {
    if a != [] && b != [] && c != [] && a[0] == b[0] && b[0] == c[0] {
      LexTransitive(a[1..], b[1..], c[1..]);
    }
  }

  lemma {:induction false} LexTotal(a: string, b: string)
    requires a != b
    ensures LexLess(a, b) || LexLess(b, a)
    decreases |a|
  {
    if a != [] && b != [] && a[0] == b[0] {
      assert a == [a[0]] + a[1..] && b == [b[0]] + b[1..];
      LexTotal(a[1..], b[1..]);
    }
  }

  /** Ascending in `str` order, hence without repeats. */
  predicate StrictlySorted(s: seq<string>)
  {
    forall i, j :: 0 <= i < j < |s| ==> LexLess(s[i], s[j])
  }

  /** Adds `x` to a sorted list of distinct strings, keeping it so. */
  function InsertUnique(x: string, s: seq<string>): (r: seq<string>)
    requires StrictlySorted(s)
    ensures StrictlySorted(r)
    ensures forall e :: e in r <==> e == x || e in s
  {
    if s == [] then [x]
    else if x == s[0] then s
    else if LexLess(x, s[0]) then
      BelowHead(x, s);
      [x] + s
    else
      LexTotal(x, s[0]);
      var t := InsertUnique(x, s[1..]);
      AboveHead(s, t);
      [s[0]] + t
  }

  lemma BelowHead(x: string, s: seq<string>)
    requires StrictlySorted(s) && s != [] && LexLess(x, s[0])
    ensures StrictlySorted([x] + s)
  {
    forall j | 0 < j < |s|
      ensures LexLess(x, s[j])
    {
      LexTransitive(x, s[0], s[j]);
    }
  }

  lemma AboveHead(s: seq<string>, t: seq<string>)
    requires StrictlySorted(s) && s != [] && StrictlySorted(t)
    requires forall e :: e in t ==> LexLess(s[0], e)
    ensures StrictlySorted([s[0]] + t)
  {
    var r := [s[0]] + t;
    forall i, j | 0 <= i < j < |r|
      ensures LexLess(r[i], r[j])
    {
      if i > 0 {
        assert r[i] == t[i - 1] && r[j] == t[j - 1];
      } else {
        assert r[j] == t[j - 1];
      }
    }
  }

  /** `sorted(set(xs))`. */
  function SortedSet(xs: seq<string>): (r: seq<string>)
    ensures StrictlySorted(r)
    ensures forall e :: e in r <==> e in xs
  {
    if xs == [] then []
    else
      assert xs == [xs[0]] + xs[1..];
      InsertUnique(xs[0], SortedSet(xs[1..]))
  }

  /** Two ascending lists with the same elements are the same list. */
  lemma {:induction false} SortedSetsEqual(a: seq<string>, b: seq<string>)
    requires StrictlySorted(a) && StrictlySorted(b)
    requires forall e :: e in a <==> e in b
    ensures a == b
    decreases |a|
  {
    if a != [] {
      assert a[0] in a;
    }
    if b != [] {
      assert b[0] in b;
    }
    if a != [] && b != [] {
      if a[0] != b[0] {
        assert a[0] in a && b[0] in b;
        var i :| 0 <= i < |b| && b[i] == a[0];
        var j :| 0 <= j < |a| && a[j] == b[0];
        LexTransitive(a[0], b[0], a[0]);
        LexIrreflexive(a[0]);
      }
      forall e
        ensures e in a[1..] <==> e in b[1..]
      {
        if e in a[1..] {
          var k :| 0 <= k < |a| - 1 && a[1..][k] == e;
          assert a[k + 1] == e && LexLess(a[0], e);
          LexIrreflexive(e);
          assert e in a && e in b;
          var m :| 0 <= m < |b| && b[m] == e;
          assert m > 0 && b[1..][m - 1] == e;
        }
        if e in b[1..] {
          var k :| 0 <= k < |b| - 1 && b[1..][k] == e;
          assert b[k + 1] == e && LexLess(b[0], e);
          LexIrreflexive(e);
          assert e in b && e in a;
          var m :| 0 <= m < |a| && a[m] == e;
          assert m > 0 && a[1..][m - 1] == e;
        }
      }
      SortedSetsEqual(a[1..], b[1..]);
      assert a == [a[0]] + a[1..] && b == [b[0]] + b[1..];
    }
  }

  /** `sorted(list(set([sender] + bcc)))`: everyone the message is actually sent to. */
  function EnvelopeRecipients(sender: string, recipients: string): (r: seq<string>)
    ensures StrictlySorted(r) && sender in r
  {
    SortedSet([sender] + BccList(recipients))
  }

  /**
   * The envelope holds the sender and every BCC address, each once, in
   * ascending order, and is the only such list; so it is never empty and the
   * source's "no valid recipients" branch cannot be taken.
   */
  lemma EnvelopeSpec(sender: string, recipients: string)
    ensures var r := EnvelopeRecipients(sender, recipients);
            && StrictlySorted(r) && sender in r && |r| >= 1
            && (forall e :: e in r <==> e == sender || e in BccList(recipients))
            && (forall s :: StrictlySorted(s) && (forall e :: e in s <==> e in r) ==> s == r)
  {
    var r := EnvelopeRecipients(sender, recipients);
    forall s | StrictlySorted(s) && (forall e :: e in s <==> e in r)
      ensures s == r
    {
      SortedSetsEqual(s, r);
    }
  }

  /** An address is in the envelope exactly when it is the sender or some stripped, non-empty entry. */
  lemma EnvelopeMembers(sender: string, recipients: string, e: string)
    ensures e in EnvelopeRecipients(sender, recipients) <==>
            e == sender || (e != [] && exists k :: 0 <= k < |SplitOn(recipients, ',')| && Strip(SplitOn(recipients, ',')[k]) == e)
  {
    AddressesSpec(SplitOn(recipients, ','), e);
    var all := [sender] + BccList(recipients);
    assert e in all <==> e == sender || e in BccList(recipients);
    assert e in SortedSet(all) <==> e in all;
    assert EnvelopeRecipients(sender, recipients) == SortedSet(all);
    assert BccList(recipients) == Addresses(SplitOn(recipients, ','));
  }

  // ---------------------------------------------------------------------------
  // The subject's Kp

  /** `max(p[2] for p in periods) if periods else 0`. */
  function MaxKp(ps: seq<Period>): (m: int)
    ensures ps == [] ==> m == 0
    ensures ps != [] ==> exists k :: 0 <= k < |ps| && ps[k].kp == m
    ensures forall k :: 0 <= k < |ps| ==> ps[k].kp <= m
  {
    if ps == [] then 0
    else if |ps| == 1 then ps[0].kp
    else
      var rest := MaxKp(ps[1..]);
      assert forall k :: 1 <= k < |ps| ==> ps[k] == ps[1..][k - 1];
      if ps[0].kp >= rest then ps[0].kp else rest
  }

  // ---------------------------------------------------------------------------
  // The stable sort by start

  /**
   * Start times in the order datetimes compare: year, month, day, then hour
   * (all instants share one time zone).
   */
  predicate InstantBefore(a: Instant, b: Instant)
  {
    DateBefore(a.date, b.date) || (a.date == b.date && a.hour < b.hour)
  }

  /** On real instants that order is the order of the hour count, i.e. of absolute time. */
  lemma InstantBeforeIsEarlier(a: Instant, b: Instant)
    requires ValidInstant(a) && ValidInstant(b)
    ensures InstantBefore(a, b) <==> HourNumber(a) < HourNumber(b)
  {
    if DateBefore(a.date, b.date) {
      OrdinalFollowsCalendar(a.date, b.date);
    } else if DateBefore(b.date, a.date) {
      OrdinalFollowsCalendar(b.date, a.date);
    } else {
      assert a.date == b.date;
    }
  }

  /** Every start is no later than every start after it. */
  predicate SortedByStart(s: seq<Period>)
  {
    forall i, j :: 0 <= i < j < |s| ==> !InstantBefore(s[j].start, s[i].start)
  }

  /** Inserts `p` behind every period that starts no later, shifting the later ones up. */
  function InsertByStart(p: Period, s: seq<Period>): (r: seq<Period>)
    ensures |r| == |s| + 1
  {
    if s == [] || !InstantBefore(p.start, s[|s| - 1].start) then s + [p]
    else InsertByStart(p, s[..|s| - 1]) + [s[|s| - 1]]
  }

  /** `periods.sort(key=lambda x: x[0])`: insertion sort, element by element. */
  function SortByStart(ps: seq<Period>): (r: seq<Period>)
    ensures |r| == |ps|
  {
    if ps == [] then [] else InsertByStart(ps[|ps| - 1], SortByStart(ps[..|ps| - 1]))
  }

  lemma {:induction false} InsertByStartPermutes(p: Period, s: seq<Period>)
    ensures multiset(InsertByStart(p, s)) == multiset(s) + multiset{p}
  {
    if s != [] && InstantBefore(p.start, s[|s| - 1].start) {
      InsertByStartPermutes(p, s[..|s| - 1]);
      assert s == s[..|s| - 1] + [s[|s| - 1]];
    }
  }

  lemma {:induction false} InsertByStartSorted(p: Period, s: seq<Period>)
    requires SortedByStart(s)
    ensures SortedByStart(InsertByStart(p, s))
  {
    if s != [] && InstantBefore(p.start, s[|s| - 1].start) {
      var init, last := s[..|s| - 1], s[|s| - 1];
      InsertByStartSorted(p, init);
      var t := InsertByStart(p, init);
      LastAfterInserted(p, s);
      AppendLatest(t, last);
      assert InsertByStart(p, s) == t + [last];
    } else if s != [] {
      AppendLatest(s, p);
    }
  }

  /** When `p` starts before the last period of a sorted list, the last one starts no earlier than anything `p` joins. */
  lemma LastAfterInserted(p: Period, s: seq<Period>)
    requires SortedByStart(s) && s != [] && InstantBefore(p.start, s[|s| - 1].start)
    ensures forall e :: e in InsertByStart(p, s[..|s| - 1]) ==> !InstantBefore(s[|s| - 1].start, e.start)
  {
    var init, last := s[..|s| - 1], s[|s| - 1];
    var t := InsertByStart(p, init);
    InsertByStartPermutes(p, init);
    forall e | e in t
      ensures !InstantBefore(last.start, e.start)
    {
      assert e in multiset(t);
      if e != p {
        assert e in multiset(init);
        var k :| 0 <= k < |init| && init[k] == e;
        assert s[k] == e && k < |s| - 1;
      }
    }
  }

  lemma AppendLatest(t: seq<Period>, q: Period)
    requires SortedByStart(t)
    requires forall e :: e in t ==> !InstantBefore(q.start, e.start)
    ensures SortedByStart(t + [q])
  {
    var r := t + [q];
    forall i, j | 0 <= i < j < |r|
      ensures !InstantBefore(r[j].start, r[i].start)
    {
      if j == |t| {
        assert r[i] in t;
      }
    }
  }

  /** The periods of `s` that start at `t`, in their order in `s`. */
  function StartingAt(s: seq<Period>, t: Instant): (r: seq<Period>)
    ensures |r| <= |s|
  {
    if s == [] then []
    else StartingAt(s[..|s| - 1], t) + (if s[|s| - 1].start == t then [s[|s| - 1]] else [])
  }

  lemma StartingAtAppend(s: seq<Period>, q: Period, t: Instant)
    ensures StartingAt(s + [q], t) == StartingAt(s, t) + (if q.start == t then [q] else [])
  {
    assert (s + [q])[..|s|] == s;
  }

  lemma {:induction false} InsertByStartStable(p: Period, s: seq<Period>, t: Instant)
    ensures StartingAt(InsertByStart(p, s), t) == StartingAt(s, t) + (if p.start == t then [p] else [])
  {
    if s == [] || !InstantBefore(p.start, s[|s| - 1].start) {
      StartingAtAppend(s, p, t);
    } else {
      var init, last := s[..|s| - 1], s[|s| - 1];
      InsertByStartStable(p, init, t);
      StartingAtAppend(InsertByStart(p, init), last, t);
      StartingAtAppend(init, last, t);
      assert s == init + [last];
      assert p.start == t ==> last.start != t;
    }
  }

  /**
   * The sort keeps every period, puts them in order of start, and keeps
   * periods that start together in their original order.
   */
  lemma {:induction false} SortByStartSpec(ps: seq<Period>)
    ensures SortedByStart(SortByStart(ps))
    ensures multiset(SortByStart(ps)) == multiset(ps)
    ensures forall t :: StartingAt(SortByStart(ps), t) == StartingAt(ps, t)
  {
    if ps != [] {
      var init, last := ps[..|ps| - 1], ps[|ps| - 1];
      SortByStartSpec(init);
      InsertByStartSorted(last, SortByStart(init));
      InsertByStartPermutes(last, SortByStart(init));
      assert ps == init + [last];
      forall t
        ensures StartingAt(SortByStart(ps), t) == StartingAt(ps, t)
      {
        InsertByStartStable(last, SortByStart(init), t);
        StartingAtAppend(init, last, t);
      }
    }
  }

  lemma InsertShift(p: Period, s: seq<Period>, j: nat)
    requires 0 < j <= |s| && InstantBefore(p.start, s[j - 1].start)
    ensures InsertByStart(p, s[..j]) + s[j..] == InsertByStart(p, s[..j - 1]) + s[j - 1..]
  {
    assert s[..j][..j - 1] == s[..j - 1];
    assert [s[j - 1]] + s[j..] == s[j - 1..];
  }

  /** The in-place sort of `send_email_alert`, as an insertion sort on the array. */
  method SortPeriods(a: array<Period>)
    modifies a
    ensures a[..] == SortByStart(old(a[..]))
  {
    ghost var input := a[..];
    for i := 0 to a.Length
      invariant a[..i] == SortByStart(input[..i])
      invariant a[i..] == input[i..]
    {
      ghost var before := a[..];
      assert before[i] == input[i] && before[..i] == SortByStart(input[..i]);
      InsertPeriod(a, i);
      assert a[..i + 1] == InsertByStart(input[i], SortByStart(input[..i]));
      SortStep(input, i);
      assert a[i + 1..] == before[i + 1..] == input[i + 1..];
    }
    assert input[..a.Length] == input;
  }

  /** Sorting one more element inserts it into the sorted prefix. */
  lemma SortStep(input: seq<Period>, i: nat)
    requires i < |input|
    ensures SortByStart(input[..i + 1]) == InsertByStart(input[i], SortByStart(input[..i]))
  {
    assert input[..i + 1][..i] == input[..i];
  }

  lemma SliceHead<T>(x: seq<T>, lo: nat, hi: nat)
    requires lo < hi <= |x|
    ensures x[lo..hi] == [x[lo]] + x[lo + 1..hi]
  {
  }

  /**
   * One step of the sort: `a[i]` moves down past the periods of the sorted
   * prefix that start after it.
   */
  method InsertPeriod(a: array<Period>, i: nat)
    requires i < a.Length
    modifies a
    ensures a[..i + 1] == InsertByStart(old(a[i]), old(a[..i]))
    ensures a[i + 1..] == old(a[i + 1..])
  {
    ghost var s := a[..i];
    ghost var rest := a[i + 1..];
    var p := a[i];
    var j := i;
    while j > 0 && InstantBefore(p.start, a[j - 1].start)
      invariant 0 <= j <= i
      invariant a[..j] == s[..j]
      invariant a[j + 1..i + 1] == s[j..]
      invariant a[i + 1..] == rest
      invariant InsertByStart(p, s) == InsertByStart(p, s[..j]) + s[j..]
    {
      ghost var before := a[..];
      a[j] := a[j - 1];
      assert a[..] == before[j := before[j - 1]];
      ShiftStep(before, s, rest, p, i, j);
      j := j - 1;
    }
    a[j] := p;
    assert s[..j] + [p] == InsertByStart(p, s[..j]);
    assert a[..i + 1] == s[..j] + [p] + s[j..];
  }

  /**
   * One shift of the insertion loop, on the array's contents: copying the
   * period at `j - 1` up to `j` moves the gap one place down and keeps the
   * loop's view of the insertion.
   */
  lemma ShiftStep(b: seq<Period>, s: seq<Period>, rest: seq<Period>, p: Period, i: nat, j: nat)
    requires 0 < j <= i < |b| && |s| == i
    requires b[..j] == s[..j] && b[j + 1..i + 1] == s[j..] && b[i + 1..] == rest
    requires InsertByStart(p, s) == InsertByStart(p, s[..j]) + s[j..]
    requires InstantBefore(p.start, s[j - 1].start)
    ensures var c := b[j := b[j - 1]];
            && c[..j - 1] == s[..j - 1] && c[j..i + 1] == s[j - 1..] && c[i + 1..] == rest
            && InsertByStart(p, s) == InsertByStart(p, s[..j - 1]) + s[j - 1..]
  {
    var c := b[j := b[j - 1]];
    InsertShift(p, s, j);
    assert c[j] == s[j - 1];
    assert c[j + 1..i + 1] == b[j + 1..i + 1];
    SliceHead(c, j, i + 1);
    SliceHead(s, j - 1, |s|);
  }

  // ---------------------------------------------------------------------------
  // The alert

  /** What the alert sends: from and to the sender, to these envelope recipients. */
  datatype Mail = Mail(sender: string, envelope: seq<string>, maxKp: int, listed: seq<Period>)

  /** The alert for `periods`, or `None` when there is nothing to send. */
  function AlertFor(ps: seq<Period>, sender: string, recipients: string): (r: Option<Mail>)
    ensures r.None? <==> ps == []
  {
    if ps == [] then None
    else Some(Mail(sender, EnvelopeRecipients(sender, recipients), MaxKp(ps), SortByStart(ps)))
  }

  /**
   * An alert names the largest Kp of the periods in its subject, and lists
   * every period once, ordered by start, ties in their original order.
   */
  lemma AlertForSpec(ps: seq<Period>, sender: string, recipients: string)
    requires ps != []
    ensures var m := AlertFor(ps, sender, recipients).value;
            && m.sender == sender && m.envelope == EnvelopeRecipients(sender, recipients)
            && (exists k :: 0 <= k < |ps| && ps[k].kp == m.maxKp)
            && (forall k :: 0 <= k < |ps| ==> ps[k].kp <= m.maxKp)
            && SortedByStart(m.listed) && multiset(m.listed) == multiset(ps)
            && (forall t :: StartingAt(m.listed, t) == StartingAt(ps, t))
  {
    SortByStartSpec(ps);
  }

  /**
   * `send_email_alert` up to rendering and delivery: returns early for an
   * empty list; otherwise sorts the caller's list in place and lists the
   * periods in the body in that order.
   */
  method SendEmailAlert(periods: array<Period>, sender: string, recipients: string) returns (mail: Option<Mail>)
    modifies periods
    ensures mail == AlertFor(old(periods[..]), sender, recipients)
    ensures periods[..] == SortByStart(old(periods[..]))
  {
    if periods.Length == 0 {
      return None;
    }
    var bcc := BccList(recipients);
    var envelope := SortedSet([sender] + bcc);
    var maxKp := MaxKp(periods[..]);
    SortPeriods(periods);
    var listed := [];
    for i := 0 to periods.Length
      invariant listed == periods[..i]
    {
      listed := listed + [periods[i]];
    }
    assert periods[..periods.Length] == periods[..];
    mail := Some(Mail(sender, envelope, maxKp, listed));
  }
}
