/** The hot-fix listing: `get_installed_updates` turns the captured lines of
    `Get-HotFix | Format-Table -AutoSize` into update records, and
    `display_installed_updates` orders them by installation date. The model
    starts from the list of lines; running PowerShell is not modelled. */
module Hotfix {
  import opened Wrappers
  import opened Text
  import opened InstallDate
  import StableSort

  datatype UpdateRecord = UpdateRecord(description: string, installedOn: DateTime)

  /** What one data line contributes. */
  datatype LineOutcome =
    | TooShort                      // fewer than six tokens: skipped silently
    | Parsed(record: UpdateRecord)
    | Unparsable(shown: string)     // dropped, reported with this text

  const HeaderLines: nat := 3
  const MinTokens: nat := 6
  const SystemPrefix: string := "AUTHORITY\\SYSTEM"
  const NoUpdatesMessage: string := "No installed updates found."
  const FailurePrefix: string := "Failed to parse installation date: "

  /** One iteration of the loop over the data lines. */
  function ParseLine(line: string): (o: LineOutcome)
    ensures o.TooShort? <==> |Split(line)| < MinTokens
  {
    ParseTokens(Split(line))
  }

  /** A data line, given as its whitespace-separated tokens: lines with
      fewer than six tokens are skipped; otherwise the description is every
      token but the first and the last four, with "NT" stripped, and the date
      candidates are the last four tokens (stripped) and the last five
      (unstripped). */
  function ParseTokens(data: seq<string>): (o: LineOutcome)
    ensures o.Unparsable? ==> |data| >= MinTokens && o.shown == StripNT(Join(data[|data| - 4..]))
  {
    if |data| < MinTokens then TooShort
    else
      var n := |data|;
      Classify(StripNT(Join(data[1..n - 4])), StripNT(Join(data[n - 4..])), Join(data[n - 5..]))
  }

  /** The date is read from the stripped four-token text, or from the raw
      five-token text when the former starts with AUTHORITY\SYSTEM. A failure
      is reported with the four-token text in both cases. */
  function Classify(description: string, installedOnStr: string, fiveTokens: string): (o: LineOutcome)
    ensures o.Parsed? ==> o.record.description == description
    ensures o.Unparsable? ==> o.shown == installedOnStr
    ensures !o.TooShort?
    ensures !StartsWith(installedOnStr, SystemPrefix) ==>
              (o.Parsed? <==> ParseInstallationDate(installedOnStr).Some?)
              && (o.Parsed? ==> Some(o.record.installedOn) == ParseInstallationDate(installedOnStr))
    ensures StartsWith(installedOnStr, SystemPrefix) ==>
              (o.Parsed? <==> ParseInstallationDate(fiveTokens).Some?)
              && (o.Parsed? ==> Some(o.record.installedOn) == ParseInstallationDate(fiveTokens))
  {
    var dateStr := if StartsWith(installedOnStr, SystemPrefix) then fiveTokens else installedOnStr;
    match ParseInstallationDate(dateStr)
    case Some(d) => Parsed(UpdateRecord(description, d))
    case None => Unparsable(installedOnStr)
  }

  /** What each data line yields, in order. */
  function Outcomes(ls: seq<string>): (os: seq<LineOutcome>)
    ensures |os| == |ls|
  {
    seq(|ls|, i requires 0 <= i < |ls| => ParseLine(ls[i]))
  }

  function RecordOf(o: LineOutcome): seq<UpdateRecord> {
    if o.Parsed? then [o.record] else []
  }

  function MessageOf(o: LineOutcome): seq<string> {
    if o.Unparsable? then [FailurePrefix + o.shown] else []
  }

  /** The records the loop has appended after lines with outcomes `os`. */
  function Records(os: seq<LineOutcome>): (rs: seq<UpdateRecord>)
    ensures |rs| <= |os|
  {
    if os == [] then []
    else Records(os[..|os| - 1]) + RecordOf(os[|os| - 1])
  }

  /** The failure messages printed after lines with outcomes `os`. */
  function Messages(os: seq<LineOutcome>): (ms: seq<string>)
    ensures |ms| <= |os|
  {
    if os == [] then []
    else Messages(os[..|os| - 1]) + MessageOf(os[|os| - 1])
  }

  /** What `get_installed_updates` returns for the captured output `lines`. */
  function Updates(lines: seq<string>): (r: seq<UpdateRecord>)
    ensures |lines| <= HeaderLines ==> r == []
    ensures |lines| > HeaderLines ==> |r| <= |lines| - HeaderLines
  {
    if |lines| < HeaderLines + 1 then [] else Records(Outcomes(lines)[HeaderLines..])
  }

  /** What it prints along the way. */
  function Diagnostics(lines: seq<string>): (r: seq<string>)
    ensures |lines| <= HeaderLines ==> r == [NoUpdatesMessage]
    ensures |lines| > HeaderLines ==> |r| <= |lines| - HeaderLines
  {
    if |lines| < HeaderLines + 1 then [NoUpdatesMessage]
    else Messages(Outcomes(lines)[HeaderLines..])
  }

  /** `get_installed_updates` from the point the output has been split into
      lines; printed diagnostics are returned in `log`. */
  method GetInstalledUpdates(lines: seq<string>) returns (updates: seq<UpdateRecord>, log: seq<string>)
    ensures updates == Updates(lines)
    ensures log == Diagnostics(lines)
  {
    if |lines| < HeaderLines + 1 {
      return [], [NoUpdatesMessage];
    }
    var data := lines[HeaderLines..];
    ghost var os := Outcomes(lines)[HeaderLines..];
    updates, log := [], [];
    for i := 0 to |data|
      invariant updates == Records(os[..i])
      invariant log == Messages(os[..i])
    {
      assert os[..i + 1][..i] == os[..i];
      assert os[i] == ParseLine(data[i]);
      match ParseLine(data[i])
      case TooShort =>
      case Parsed(r) =>
        updates := updates + [r];
      case Unparsable(shown) =>
        log := log + [FailurePrefix + shown];
    }
    assert os[..|data|] == os;
  }

  lemma {:induction false} RecordsAppend(a: seq<LineOutcome>, b: seq<LineOutcome>)
    ensures Records(a + b) == Records(a) + Records(b)
    decreases |b|
  {
    if b == [] {
      assert a + b == a;
    } else {
      var b' := b[..|b| - 1];
      assert (a + b)[..|a + b| - 1] == a + b';
      assert (a + b)[|a + b| - 1] == b[|b| - 1];
      RecordsAppend(a, b');
    }
  }

  /** A line that yields no record (too short, or with an unreadable date)
      is dropped without affecting the lines around it. */
  lemma LineWithoutRecordDropped(a: seq<LineOutcome>, o: LineOutcome, b: seq<LineOutcome>)
    requires !o.Parsed?
    ensures Records(a + [o] + b) == Records(a + b)
  {
    assert Records([o]) == [] by {
      assert [o][..0] == [];
    }
    RecordsAppend(a + [o], b);
    RecordsAppend(a, [o]);
    assert Records(a + [o]) == Records(a);
    RecordsAppend(a, b);
  }

  /** The records are exactly those of the lines that parse, one per line. */
  lemma {:induction false} RecordsExactly(os: seq<LineOutcome>, r: UpdateRecord)
    ensures r in Records(os) <==> exists i :: 0 <= i < |os| && os[i] == Parsed(r)
    decreases |os|
  {
    if os != [] {
      var init := os[..|os| - 1];
      RecordsExactly(init, r);
      if exists i :: 0 <= i < |os| && os[i] == Parsed(r) {
        var i :| 0 <= i < |os| && os[i] == Parsed(r);
        if i < |os| - 1 {
          assert init[i] == os[i];
        }
      }
      if r in Records(init) {
        var i :| 0 <= i < |init| && init[i] == Parsed(r);
        assert os[i] == init[i];
      }
    }
  }

  /** The records of the outcomes from index `k` on are those of the
      outcomes there that parse. */
  lemma RecordsFrom(os: seq<LineOutcome>, k: nat, r: UpdateRecord)
    requires k <= |os|
    ensures r in Records(os[k..]) <==> exists i :: k <= i < |os| && os[i] == Parsed(r)
  {
    var tail := os[k..];
    RecordsExactly(tail, r);
    if r in Records(tail) {
      var j :| 0 <= j < |tail| && tail[j] == Parsed(r);
      assert os[j + k] == tail[j];
    }
    if exists i :: k <= i < |os| && os[i] == Parsed(r) {
      var i :| k <= i < |os| && os[i] == Parsed(r);
      assert tail[i - k] == os[i];
    }
  }

  /** `get_installed_updates`: output of fewer than four lines gives nothing
      but the "no updates" message; otherwise the three header lines never
      give a record, and every data line whose date parses gives exactly its
      record. */
  lemma UpdatesFromDataLines(lines: seq<string>, r: UpdateRecord)
    ensures |lines| <= HeaderLines ==> Updates(lines) == [] && Diagnostics(lines) == [NoUpdatesMessage]
    ensures r in Updates(lines) <==>
      exists i :: HeaderLines <= i < |lines| && Outcomes(lines)[i] == Parsed(r)
  {
    if |lines| > HeaderLines {
      RecordsFrom(Outcomes(lines), HeaderLines, r);
    }
  }

  lemma {:induction false} MessagesAppend(a: seq<LineOutcome>, b: seq<LineOutcome>)
    ensures Messages(a + b) == Messages(a) + Messages(b)
    decreases |b|
  {
    if b == [] {
      assert a + b == a;
    } else {
      var b' := b[..|b| - 1];
      assert (a + b)[..|a + b| - 1] == a + b';
      assert (a + b)[|a + b| - 1] == b[|b| - 1];
      MessagesAppend(a, b');
    }
  }

  /** The messages are exactly the failure texts of the lines whose date
      cannot be read, one per line. */
  lemma {:induction false} MessagesExactly(os: seq<LineOutcome>, m: string)
    ensures m in Messages(os) <==>
      exists i :: 0 <= i < |os| && os[i].Unparsable? && m == FailurePrefix + os[i].shown
    decreases |os|
  {
    if os != [] {
      var init := os[..|os| - 1];
      MessagesExactly(init, m);
      if exists i :: 0 <= i < |os| && os[i].Unparsable? && m == FailurePrefix + os[i].shown {
        var i :| 0 <= i < |os| && os[i].Unparsable? && m == FailurePrefix + os[i].shown;
        if i < |os| - 1 {
          assert init[i] == os[i];
        }
      }
      if m in Messages(init) {
        var i :| 0 <= i < |init| && init[i].Unparsable? && m == FailurePrefix + init[i].shown;
        assert os[i] == init[i];
      }
    }
  }

  /** The same for the outcomes from index `k` on. */
  lemma MessagesFrom(os: seq<LineOutcome>, k: nat, m: string)
    requires k <= |os|
    ensures m in Messages(os[k..]) <==>
      exists i :: k <= i < |os| && os[i].Unparsable? && m == FailurePrefix + os[i].shown
  {
    var tail := os[k..];
    MessagesExactly(tail, m);
    if m in Messages(tail) {
      var j :| 0 <= j < |tail| && tail[j].Unparsable? && m == FailurePrefix + tail[j].shown;
      assert os[j + k] == tail[j];
    }
    if exists i :: k <= i < |os| && os[i].Unparsable? && m == FailurePrefix + os[i].shown {
      var i :| k <= i < |os| && os[i].Unparsable? && m == FailurePrefix + os[i].shown;
      assert tail[i - k] == os[i];
    }
  }

  /** What `get_installed_updates` prints once there are data lines: exactly
      one failure message for each data line of six or more tokens whose
      date cannot be read, showing its stripped last four tokens. */
  lemma DiagnosticsFromDataLines(lines: seq<string>, m: string)
    requires |lines| > HeaderLines
    ensures m in Diagnostics(lines) <==>
      exists i :: HeaderLines <= i < |lines| && Outcomes(lines)[i].Unparsable?
                  && m == FailurePrefix + Outcomes(lines)[i].shown
    ensures NoUpdatesMessage !in Diagnostics(lines)
  {
    MessagesFrom(Outcomes(lines), HeaderLines, m);
    MessagesFrom(Outcomes(lines), HeaderLines, NoUpdatesMessage);
  }

  lemma OutcomesAppend(lines: seq<string>, line: string)
    requires |lines| >= HeaderLines
    ensures Outcomes(lines + [line])[HeaderLines..] == Outcomes(lines)[HeaderLines..] + [ParseLine(line)]
  {
    var l := lines + [line];
    var os := Outcomes(lines) + [ParseLine(line)];
    forall i | 0 <= i < |l|
      ensures Outcomes(l)[i] == os[i]
    {
      if i < |lines| {
        assert l[i] == lines[i];
      }
    }
    assert Outcomes(l) == os;
  }

  lemma OutcomeAppended(os: seq<LineOutcome>, o: LineOutcome)
    ensures Records(os + [o]) == Records(os) + RecordOf(o)
    ensures Messages(os + [o]) == Messages(os) + MessageOf(o)
  {
    assert (os + [o])[..|os|] == os;
  }

  /** Lines are handled in order: one more line after the headers appends
      its record, or its failure message, after those of the lines before. */
  lemma NextLineAppends(lines: seq<string>, line: string)
    requires |lines| > HeaderLines
    ensures Updates(lines + [line]) == Updates(lines) + RecordOf(ParseLine(line))
    ensures Diagnostics(lines + [line]) == Diagnostics(lines) + MessageOf(ParseLine(line))
  {
    OutcomesAppend(lines, line);
    OutcomeAppended(Outcomes(lines)[HeaderLines..], ParseLine(line));
  }

  /** A line written as single-space-separated tokens is read as those tokens. */
  lemma ParseJoinedLine(ts: seq<string>)
    requires AllWords(ts)
    ensures ParseLine(Join(ts)) == ParseTokens(ts)
  {
    SplitJoin(ts);
  }

  /** The same for a line as the command pads it: runs of whitespace of any
      width between the columns and around the line. */
  lemma ParsePaddedLine(lead: string, ts: seq<string>, gaps: seq<string>, trail: string)
    requires AllWords(ts) && |ts| <= |gaps| + 1 && Gaps(gaps)
    requires AllSpace(lead) && AllSpace(trail)
    ensures ParseLine(lead + Padded(ts, gaps) + trail) == ParseTokens(ts)
  {
    SplitPadded(lead, ts, gaps, trail);
  }

  /** Replacing the first token of a line never changes what it yields. */
  lemma FirstTokenIgnored(a: string, b: string, rest: seq<string>)
    ensures ParseTokens([a] + rest) == ParseTokens([b] + rest)
  {
    var ta, tb := [a] + rest, [b] + rest;
    var n := |ta|;
    if n >= MinTokens {
      assert ta[1..n - 4] == rest[..n - 5] == tb[1..n - 4];
      assert ta[n - 4..] == rest[n - 5..] == tb[n - 4..];
      assert ta[n - 5..] == rest[n - 6..] == tb[n - 5..];
    }
  }

  /** The three tokens a matched date window splits into. */
  function WindowTokens(f: string): seq<string>
    requires |f| == WindowLength
  {
    [f[..9], f[10..18], f[19..]]
  }

  lemma WindowTokensJoin(f: string)
    requires Shaped(f)
    ensures AllWords(WindowTokens(f))
    ensures Join(WindowTokens(f)) == f
  {
    var ts := WindowTokens(f);
    assert Join(ts[2..]) == f[19..];
    assert Join(ts[1..]) == f[10..18] + " " + f[19..];
    assert Join(ts) == f[..9] + " " + (f[10..18] + " " + f[19..]);
    assert f == f[..9] + " " + (f[10..18] + " " + f[19..]);
  }

  lemma NoDigitsInSystemPrefix()
    ensures forall k :: 0 <= k < |"NT " + SystemPrefix + " "| ==> !IsDigit(("NT " + SystemPrefix + " ")[k])
    ensures StripNT(SystemPrefix + " ") == SystemPrefix + " "
  {
    var s := SystemPrefix + " ";
    assert !ContainsNT(s);
    StripNTIdentity(s);
  }

  /** The tokens of a line whose installer column reads NT AUTHORITY\SYSTEM. */
  function SystemLineTokens(head: seq<string>, d: DateTime): seq<string>
    requires Valid(d)
  {
    head + ["NT", SystemPrefix] + WindowTokens(Format(d))
  }

  lemma SystemLineTail(head: seq<string>, f: string)
    requires Shaped(f)
    ensures var ts := head + ["NT", SystemPrefix] + WindowTokens(f); var n := |ts|;
      && StartsWith(StripNT(Join(ts[n - 4..])), SystemPrefix)
      && Join(ts[n - 5..]) == ("NT " + SystemPrefix + " ") + f
  {
    WindowTokensJoin(f);
    var tail := WindowTokens(f);
    var ts := head + ["NT", SystemPrefix] + tail;
    var n := |ts|;
    assert ts[n - 4..] == [SystemPrefix] + tail;
    SystemPrefixKept(f);
    assert ts[n - 5..] == ["NT", SystemPrefix] + tail;
    JoinAppend(["NT", SystemPrefix], tail);
  }

  lemma SystemPrefixKept(f: string)
    requires Shaped(f)
    ensures StartsWith(StripNT(Join([SystemPrefix] + WindowTokens(f))), SystemPrefix)
  {
    var tail := WindowTokens(f);
    WindowTokensJoin(f);
    JoinAppend([SystemPrefix], tail);
    assert Join([SystemPrefix] + tail) == (SystemPrefix + " ") + f;
    NoDigitsInSystemPrefix();
    StripNTAppend(SystemPrefix + " ", f);
  }

  lemma ClassifySystem(description: string, four: string, five: string, d: DateTime)
    requires StartsWith(four, SystemPrefix)
    requires ParseInstallationDate(five) == Some(d)
    ensures Classify(description, four, five) == Parsed(UpdateRecord(description, d))
  {
  }

  lemma ClassifySystemFails(description: string, four: string, five: string)
    requires StartsWith(four, SystemPrefix)
    requires ParseInstallationDate(five) == None
    ensures Classify(description, four, five) == Unparsable(four)
  {
  }

  /** The tokens of a line installed by NT AUTHORITY\SYSTEM form the line
      the command prints for it. */
  lemma SystemLineJoined(head: seq<string>, d: DateTime)
    requires AllWords(head)
    requires Valid(d)
    ensures AllWords(SystemLineTokens(head, d))
    ensures Join(SystemLineTokens(head, d)) == Join(head + ["NT", SystemPrefix]) + " " + Format(d)
  {
    FormatShaped(d);
    WindowTokensJoin(Format(d));
    var front := head + ["NT", SystemPrefix];
    assert AllWords(front);
    JoinAppend(front, WindowTokens(Format(d)));
  }

  /** A line installed by NT AUTHORITY\SYSTEM: its date is read from the last
      five tokens, and the description is tokens 1 .. n-5 (here ending with
      "NT"), stripped. */
  lemma SystemInstalledLine(head: seq<string>, d: DateTime)
    requires |head| >= 1
    requires Valid(d)
    ensures ParseTokens(SystemLineTokens(head, d))
         == Parsed(UpdateRecord(StripNT(Join(head[1..] + ["NT"])), d))
  {
    var ts := SystemLineTokens(head, d);
    var n := |ts|;
    var description := StripNT(Join(ts[1..n - 4]));
    var four := StripNT(Join(ts[n - 4..]));
    var five := Join(ts[n - 5..]);
    assert ts[1..n - 4] == head[1..] + ["NT"];
    FormatShaped(d);
    SystemLineTail(head, Format(d));
    NoDigitsInSystemPrefix();
    ParseAfterDigitFreePrefix("NT " + SystemPrefix + " ", d);
    ClassifySystem(description, four, five, d);
  }

  lemma ClassifyOrdinary(description: string, four: string, five: string, d: DateTime)
    requires !StartsWith(four, SystemPrefix)
    requires ParseInstallationDate(four) == Some(d)
    ensures Classify(description, four, five) == Parsed(UpdateRecord(description, d))
  {
  }

  lemma NoSpaceInSystemPrefix()
    ensures forall k :: 0 <= k < |SystemPrefix| ==> SystemPrefix[k] != ' '
  {
  }

  /** The last four tokens of a line whose installer column is the single
      token `who`: stripping leaves their text alone, and it does not start
      with AUTHORITY\SYSTEM. */
  lemma OrdinaryLineTail(who: string, f: string)
    requires Shaped(f) && !ContainsNT(f)
    requires IsWord(who) && !ContainsNT(who) && !StartsWith(who, SystemPrefix)
    ensures StripNT(Join([who] + WindowTokens(f))) == who + " " + f
    ensures !StartsWith(who + " " + f, SystemPrefix)
  {
    WindowTokensJoin(f);
    JoinAppend([who], WindowTokens(f));
    var spaced := who + " ";
    assert !ContainsNT(spaced) by {
      assert forall j :: 0 <= j < |who| ==> spaced[j] == who[j];
    }
    StripNTIdentity(spaced);
    StripNTIdentity(f);
    StripNTAppend(spaced, f);
    if StartsWith(who + " " + f, SystemPrefix) {
      NoSpaceInSystemPrefix();
      StartsWithinWord(who, f, SystemPrefix);
    }
  }

  lemma OrdinaryDate(who: string, d: DateTime)
    requires Valid(d)
    requires forall k :: 0 <= k < |who| ==> !IsDigit(who[k])
    ensures ParseInstallationDate(who + " " + Format(d)) == Some(d)
  {
    var p := who + " ";
    assert forall k :: 0 <= k < |who| ==> p[k] == who[k];
    ParseAfterDigitFreePrefix(p, d);
  }

  /** A line whose last four tokens, stripped, do not start with
      AUTHORITY\SYSTEM: the date is read from that text. */
  lemma OrdinaryLineParsed(head: seq<string>, tail: seq<string>, d: DateTime)
    requires |head| >= 2 && |tail| == 4
    requires !StartsWith(StripNT(Join(tail)), SystemPrefix)
    requires ParseInstallationDate(StripNT(Join(tail))) == Some(d)
    ensures ParseTokens(head + tail) == Parsed(UpdateRecord(StripNT(Join(head[1..])), d))
  {
    var ts := head + tail;
    var n := |ts|;
    assert ts[1..n - 4] == head[1..];
    assert ts[n - 4..] == tail;
    ClassifyOrdinary(StripNT(Join(head[1..])), StripNT(Join(tail)), Join(ts[n - 5..]), d);
  }

  /** A line whose installer column is one token other than NT
      AUTHORITY\SYSTEM (such as DOMAIN\admin): its date is read from the
      last four tokens, and the description is tokens 1 .. n-5, stripped. */
  lemma OrdinaryInstalledLine(head: seq<string>, who: string, d: DateTime)
    requires |head| >= 2
    requires Valid(d)
    requires IsWord(who) && !ContainsNT(who) && !StartsWith(who, SystemPrefix)
    requires forall k :: 0 <= k < |who| ==> !IsDigit(who[k])
    ensures ParseTokens(head + [who] + WindowTokens(Format(d)))
         == Parsed(UpdateRecord(StripNT(Join(head[1..])), d))
  {
    var tail := [who] + WindowTokens(Format(d));
    FormatShaped(d);
    FormatNoNT(d);
    OrdinaryLineTail(who, Format(d));
    OrdinaryDate(who, d);
    OrdinaryLineParsed(head, tail, d);
    assert head + [who] + WindowTokens(Format(d)) == head + tail;
  }

  /** Python's `x <= y` on the sort key `InstalledOn`. */
  predicate InstalledNoLater(x: UpdateRecord, y: UpdateRecord) {
    DateLe(x.installedOn, y.installedOn)
  }

  lemma InstalledNoLaterPreorder()
    ensures StableSort.TotalPreorder(InstalledNoLater)
  {
    forall x: UpdateRecord, y: UpdateRecord, z: UpdateRecord
      ensures InstalledNoLater(x, y) || InstalledNoLater(y, x)
      ensures InstalledNoLater(x, y) && InstalledNoLater(y, z) ==> InstalledNoLater(x, z)
    {
      DateLeTotalOrder(x.installedOn, y.installedOn, z.installedOn);
    }
  }

  /** `sorted(updates, key=lambda x: x.get('InstalledOn', datetime.min))`;
      every record has a date, so the default never applies. */
  function SortedUpdates(us: seq<UpdateRecord>): (r: seq<UpdateRecord>)
    ensures |r| == |us| && multiset(r) == multiset(us)
  {
    StableSort.Sort(us, InstalledNoLater)
  }

  /** The displayed list is chronological, holds the same records, and
      records installed at the same moment keep their listing order. */
  lemma SortedUpdatesChronological(us: seq<UpdateRecord>)
    ensures StableSort.Sorted(SortedUpdates(us), InstalledNoLater)
    ensures multiset(SortedUpdates(us)) == multiset(us)
    ensures forall y :: StableSort.Ties(SortedUpdates(us), InstalledNoLater, y)
                     == StableSort.Ties(us, InstalledNoLater, y)
  {
    InstalledNoLaterPreorder();
    StableSort.SortIsStable(us, InstalledNoLater);
  }
}
