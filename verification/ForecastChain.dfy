/** The hash-chained forecast ledger (feasibility/scripts/forward_wti_lag_1d.py:364-482). */
module ForecastChain {
  import opened Contracts
  import opened Combinatorics

  const GENESIS := "GENESIS"
  const SCHEMA_VERSION := "forecast_chain.v1"

  datatype LedgerForecast = LedgerForecast(eventId: string, lockId: string, body: string)

  datatype Payload = Payload(schema: string, sequence: int, eventId: string, lockId: string, forecastSha: string,
                             previous: string)

  datatype Entry = Entry(payload: Payload, chainHash: string)

  /** What a chain line decodes to: not JSON, JSON of another shape, or an entry. */
  datatype Decoded = Malformed | Other | Decoded(entry: Entry)

  /** SHA-256 and canonical JSON. None: the line is not a JSON forecast with both ids. */
  datatype Codec = Codec(
    sha: string -> string,
    forecastLine: LedgerForecast -> string,
    parseForecast: string -> Option<LedgerForecast>,
    payloadText: Payload -> string,
    entryLine: Entry -> string,
    parseEntry: string -> Decoded)

  /** The hash is collision-free and never "GENESIS", and distinct payloads have distinct texts. */
  ghost predicate Collisionless(c: Codec) {
    && (forall s, t :: c.sha(s) == c.sha(t) ==> s == t)
    && (forall s :: c.sha(s) != GENESIS)
    && forall p, q :: c.payloadText(p) == c.payloadText(q) ==> p == q
  }

  /** Canonical JSON is decoded to what was encoded. */
  ghost predicate RoundTrips(c: Codec) {
    && (forall f :: c.parseForecast(c.forecastLine(f)) == Some(f))
    && forall e :: c.parseEntry(c.entryLine(e)) == Decoded(e)
  }

  /** _chain_entry. */
  function ChainEntry(c: Codec, sequence: int, f: LedgerForecast, line: string, previous: string): Entry {
    var payload := Payload(SCHEMA_VERSION, sequence, f.eventId, f.lockId, c.sha(line), previous);
    Entry(payload, c.sha(c.payloadText(payload)))
  }

  // ----- the ledger as a function of its forecast lines

  function ForecastOf(c: Codec, line: string): LedgerForecast {
    var f := c.parseForecast(line);
    if f.Some? then f.value else LedgerForecast.LedgerForecast("", "", "")
  }

  predicate Parses(c: Codec, lines: seq<string>) {
    forall i :: 0 <= i < |lines| ==> c.parseForecast(lines[i]).Some?
  }

  function Head(entries: seq<Entry>): string {
    if entries == [] then GENESIS else entries[|entries| - 1].chainHash
  }

  /** The chain of the lines, rebuilt from scratch. */
  function Built(c: Codec, lines: seq<string>): (entries: seq<Entry>)
    ensures |entries| == |lines|
  {
    if lines == [] then []
    else
      var front, line := lines[..|lines| - 1], lines[|lines| - 1];
      var entries := Built(c, front);
      entries + [ChainEntry(c, |lines|, ForecastOf(c, line), line, Head(entries))]
  }

  function Ids(c: Codec, lines: seq<string>): seq<string> {
    seq(|lines|, i requires 0 <= i < |lines| => ForecastOf(c, lines[i]).eventId)
  }

  /** The chain file holds exactly the rebuilt chain. */
  ghost predicate Matches(c: Codec, lines: seq<string>, chain: seq<string>) {
    && |chain| == |lines|
    && forall i :: 0 <= i < |lines| ==> c.parseEntry(chain[i]) == Decoded(Built(c, lines)[i])
  }

  ghost predicate Verified(c: Codec, lines: seq<string>, chain: seq<string>) {
    Parses(c, lines) && Matches(c, lines, chain) && Distinct(Ids(c, lines))
  }

  function EntryLines(c: Codec, entries: seq<Entry>): seq<string> {
    seq(|entries|, i requires 0 <= i < |entries| => c.entryLine(entries[i]))
  }

  function ForecastLines(c: Codec, forecasts: seq<LedgerForecast>): seq<string> {
    seq(|forecasts|, i requires 0 <= i < |forecasts| => c.forecastLine(forecasts[i]))
  }

  lemma {:induction false} BuiltPrefix(c: Codec, lines: seq<string>, n: nat)
    requires n <= |lines|
    ensures Built(c, lines[..n]) == Built(c, lines)[..n]
  {
    if n < |lines| {
      BuiltPrefix(c, lines[..|lines| - 1], n);
      assert lines[..|lines| - 1][..n] == lines[..n];
    } else {
      assert lines[..n] == lines;
    }
  }

  lemma BuiltSnoc(c: Codec, xs: seq<string>, line: string)
    ensures Built(c, xs + [line]) == Built(c, xs)
              + [ChainEntry(c, |xs| + 1, ForecastOf(c, line), line, Head(Built(c, xs)))]
  {
    assert (xs + [line])[..|xs|] == xs;
  }

  lemma LastEntry(c: Codec, xs: seq<string>)
    requires xs != []
    ensures var n := |xs| - 1;
            Built(c, xs)[n] == ChainEntry(c, n + 1, ForecastOf(c, xs[n]), xs[n], Head(Built(c, xs[..n])))
  {
  }

  lemma EntryFrom(c: Codec, lines: seq<string>, i: nat)
    requires i < |lines|
    ensures Built(c, lines)[i] == ChainEntry(c, i + 1, ForecastOf(c, lines[i]), lines[i], Head(Built(c, lines)[..i]))
    ensures Head(Built(c, lines)[..i + 1]) == Built(c, lines)[i].chainHash
  {
    var shorter := lines[..i + 1];
    BuiltPrefix(c, lines, i + 1);
    BuiltPrefix(c, lines, i);
    LastEntry(c, shorter);
    assert shorter[..i] == lines[..i];
  }

  /** The i-th entry numbers its line from one, names the line's ids, hashes the line and links to the entry before. */
  lemma EntryAt(c: Codec, lines: seq<string>, i: nat)
    requires i < |lines|
    ensures var e, f := Built(c, lines)[i], ForecastOf(c, lines[i]);
            && e.payload.schema == "forecast_chain.v1" && e.payload.sequence == i + 1
            && e.payload.eventId == f.eventId && e.payload.lockId == f.lockId
            && e.payload.forecastSha == c.sha(lines[i])
            && e.payload.previous == (if i == 0 then "GENESIS" else Built(c, lines)[i - 1].chainHash)
            && e.chainHash == c.sha(c.payloadText(e.payload))
  {
    EntryFrom(c, lines, i);
    if i > 0 { EntryFrom(c, lines, i - 1); }
  }

  // ----- tamper evidence

  /**
   * Under a collision-free hash the head commits to everything: chains with the same head belong to
   * identical forecast lines. In particular no line can be changed, dropped, inserted or moved.
   */
  lemma {:induction false} HeadDeterminesLines(c: Codec, xs: seq<string>, ys: seq<string>)
    requires Collisionless(c) && Head(Built(c, xs)) == Head(Built(c, ys))
    ensures xs == ys
  {
    if xs == [] || ys == [] {
      HeadIsHash(c, xs);
      HeadIsHash(c, ys);
    } else {
      LastLink(c, xs, ys);
      HeadDeterminesLines(c, xs[..|xs| - 1], ys[..|ys| - 1]);
      assert xs == xs[..|xs| - 1] + [xs[|xs| - 1]];
      assert ys == ys[..|ys| - 1] + [ys[|ys| - 1]];
    }
  }

  lemma SameEntry(c: Codec, i: int, f: LedgerForecast, x: string, p: string,
                  j: int, g: LedgerForecast, y: string, q: string)
    requires Collisionless(c) && ChainEntry(c, i, f, x, p).chainHash == ChainEntry(c, j, g, y, q).chainHash
    ensures x == y && p == q
  {
    var a, b := ChainEntry(c, i, f, x, p).payload, ChainEntry(c, j, g, y, q).payload;
    assert c.payloadText(a) == c.payloadText(b);
    assert a == b;
    assert c.sha(x) == c.sha(y);
  }

  lemma LastLink(c: Codec, xs: seq<string>, ys: seq<string>)
    requires Collisionless(c) && xs != [] && ys != [] && Head(Built(c, xs)) == Head(Built(c, ys))
    ensures xs[|xs| - 1] == ys[|ys| - 1]
    ensures Head(Built(c, xs[..|xs| - 1])) == Head(Built(c, ys[..|ys| - 1]))
  {
    var m, n := |xs| - 1, |ys| - 1;
    LastEntry(c, xs);
    LastEntry(c, ys);
    var p, q := Head(Built(c, xs[..m])), Head(Built(c, ys[..n]));
    SameEntry(c, m + 1, ForecastOf(c, xs[m]), xs[m], p, n + 1, ForecastOf(c, ys[n]), ys[n], q);
  }

  lemma HeadIsHash(c: Codec, xs: seq<string>)
    requires Collisionless(c)
    ensures Head(Built(c, xs)) == GENESIS <==> xs == []
  {
    if xs != [] {
      var e := Built(c, xs)[|xs| - 1];
      assert e.chainHash == c.sha(c.payloadText(e.payload));
    }
  }

  /** The head a chain file shows: that of its last line. */
  function FileHead(c: Codec, chain: seq<string>): string {
    if chain == [] then GENESIS
    else
      var d := c.parseEntry(chain[|chain| - 1]);
      if d.Decoded? then d.entry.chainHash else GENESIS
  }

  /** Two verified ledgers whose chain files end in the same hash have identical forecasts and entries. */
  lemma TamperEvidence(c: Codec, xs: seq<string>, xchain: seq<string>, ys: seq<string>, ychain: seq<string>)
    requires Collisionless(c) && Verified(c, xs, xchain) && Verified(c, ys, ychain)
    requires FileHead(c, xchain) == FileHead(c, ychain)
    ensures xs == ys
    ensures |xchain| == |ychain| && forall i :: 0 <= i < |xchain| ==> c.parseEntry(xchain[i]) == c.parseEntry(ychain[i])
  {
    assert FileHead(c, xchain) == Head(Built(c, xs));
    assert FileHead(c, ychain) == Head(Built(c, ys));
    HeadDeterminesLines(c, xs, ys);
  }

  // ----- incremental append against rebuild

  /** The hash the next entry links to. */
  function Link(previous: string, entries: seq<Entry>): string {
    if entries == [] then previous else entries[|entries| - 1].chainHash
  }

  /** The entries _append_forecasts computes for the new forecasts. */
  function Appended(c: Codec, forecasts: seq<LedgerForecast>, start: nat, previous: string): (entries: seq<Entry>)
    ensures |entries| == |forecasts|
  {
    if forecasts == [] then []
    else
      var front, f := forecasts[..|forecasts| - 1], forecasts[|forecasts| - 1];
      var entries := Appended(c, front, start, previous);
      entries + [ChainEntry(c, start + |front|, f, c.forecastLine(f), Link(previous, entries))]
  }

  lemma AppendedSnoc(c: Codec, fs: seq<LedgerForecast>, f: LedgerForecast, start: nat, previous: string)
    ensures var entries := Appended(c, fs, start, previous);
            Appended(c, fs + [f], start, previous)
            == entries + [ChainEntry(c, start + |fs|, f, c.forecastLine(f), Link(previous, entries))]
  {
    assert (fs + [f])[..|fs|] == fs;
  }

  lemma LinesSnoc(c: Codec, lines: seq<string>, fs: seq<LedgerForecast>, f: LedgerForecast)
    ensures lines + ForecastLines(c, fs + [f]) == lines + ForecastLines(c, fs) + [c.forecastLine(f)]
  {
  }

  lemma ParsesBack(c: Codec, f: LedgerForecast)
    requires RoundTrips(c)
    ensures c.parseForecast(c.forecastLine(f)) == Some(f) && ForecastOf(c, c.forecastLine(f)) == f
  {
  }

  lemma HeadOfConcat(xs: seq<Entry>, ys: seq<Entry>, y: Entry)
    ensures Head(xs + ys) == Link(Head(xs), ys)
    ensures xs + ys + [y] == xs + (ys + [y])
  {
  }

  lemma RebuildStep(c: Codec, sofar: seq<string>, f: LedgerForecast, built: seq<Entry>, fs: seq<LedgerForecast>,
                    start: nat)
    requires Built(c, sofar) == built + Appended(c, fs, start, Head(built)) && |sofar| + 1 == start + |fs|
    requires ForecastOf(c, c.forecastLine(f)) == f
    ensures Built(c, sofar + [c.forecastLine(f)]) == built + Appended(c, fs + [f], start, Head(built))
  {
    var added := Appended(c, fs, start, Head(built));
    BuiltSnoc(c, sofar, c.forecastLine(f));
    AppendedSnoc(c, fs, f, start, Head(built));
    HeadOfConcat(built, added, ChainEntry(c, start + |fs|, f, c.forecastLine(f), Link(Head(built), added)));
  }

  /** Appending increments and rebuilding agree. */
  lemma {:induction false} AppendIsRebuild(c: Codec, lines: seq<string>, forecasts: seq<LedgerForecast>)
    requires RoundTrips(c)
    ensures Built(c, lines + ForecastLines(c, forecasts))
         == Built(c, lines) + Appended(c, forecasts, |lines| + 1, Head(Built(c, lines)))
  {
    if forecasts == [] {
      assert lines + ForecastLines(c, forecasts) == lines;
    } else {
      var n := |forecasts| - 1;
      var front, f := forecasts[..n], forecasts[n];
      AppendIsRebuild(c, lines, front);
      assert forecasts == front + [f];
      LinesSnoc(c, lines, front, f);
      ParsesBack(c, f);
      RebuildStep(c, lines + ForecastLines(c, front), f, Built(c, lines), front, |lines| + 1);
    }
  }

  function EventIds(forecasts: seq<LedgerForecast>): seq<string> {
    seq(|forecasts|, i requires 0 <= i < |forecasts| => forecasts[i].eventId)
  }

  lemma NewIds(c: Codec, lines: seq<string>, forecasts: seq<LedgerForecast>)
    requires RoundTrips(c)
    ensures Parses(c, ForecastLines(c, forecasts))
    ensures Ids(c, lines + ForecastLines(c, forecasts)) == Ids(c, lines) + EventIds(forecasts)
  {
    var all, n := lines + ForecastLines(c, forecasts), |lines|;
    forall i | 0 <= i < |forecasts|
        ensures ForecastOf(c, all[n + i]) == forecasts[i] && c.parseForecast(all[n + i]).Some? {
      ParsesBack(c, forecasts[i]);
    }
  }

  /** The ids of the new forecasts are distinct and none is in the ledger. */
  ghost predicate FreshIds(c: Codec, lines: seq<string>, forecasts: seq<LedgerForecast>) {
    Distinct(EventIds(forecasts)) && forall id :: id in EventIds(forecasts) ==> id !in Ids(c, lines)
  }

  lemma MatchesAppend(c: Codec, lines: seq<string>, chain: seq<string>, lines': seq<string>, entries: seq<Entry>)
    requires RoundTrips(c) && Matches(c, lines, chain) && Built(c, lines') == Built(c, lines) + entries
    ensures Matches(c, lines', chain + EntryLines(c, entries))
  {
    var chain' := chain + EntryLines(c, entries);
    forall i | 0 <= i < |lines'| ensures c.parseEntry(chain'[i]) == Decoded(Built(c, lines')[i]) {
      if i < |lines| {
        assert chain'[i] == chain[i];
      } else {
        assert chain'[i] == c.entryLine(entries[i - |lines|]);
      }
    }
  }

  lemma AppendedMatches(c: Codec, lines: seq<string>, chain: seq<string>, forecasts: seq<LedgerForecast>)
    requires RoundTrips(c) && Parses(c, lines) && Matches(c, lines, chain)
    ensures var lines' := lines + ForecastLines(c, forecasts);
            var chain' := chain + EntryLines(c, Appended(c, forecasts, |lines| + 1, Head(Built(c, lines))));
            Parses(c, lines') && Matches(c, lines', chain')
  {
    AppendIsRebuild(c, lines, forecasts);
    NewIds(c, lines, forecasts);
    var entries := Appended(c, forecasts, |lines| + 1, Head(Built(c, lines)));
    MatchesAppend(c, lines, chain, lines + ForecastLines(c, forecasts), entries);
  }

  lemma DistinctConcat(xs: seq<string>, ys: seq<string>)
    ensures Distinct(xs + ys) <==> Distinct(xs) && Distinct(ys) && forall y :: y in ys ==> y !in xs
  {
    var all := xs + ys;
    if Distinct(all) {
      assert forall i :: 0 <= i < |xs| ==> all[i] == xs[i];
      forall i, j | 0 <= i < j < |ys| ensures ys[i] != ys[j] {
        assert all[|xs| + i] != all[|xs| + j];
      }
      forall y | y in ys ensures y !in xs {
        var j :| 0 <= j < |ys| && ys[j] == y;
        assert all[|xs| + j] == y;
      }
    } else {
      var i, j :| 0 <= i < j < |all| && all[i] == all[j];
      if j < |xs| {
        assert xs[i] == xs[j];
      } else if i < |xs| {
        assert ys[j - |xs|] in ys && xs[i] in xs;
      } else {
        assert ys[i - |xs|] == ys[j - |xs|];
      }
    }
  }

  /** The appended ledger is verified iff the new ids are fresh and distinct. */
  lemma AppendVerifiesIff(c: Codec, lines: seq<string>, chain: seq<string>, forecasts: seq<LedgerForecast>)
    requires RoundTrips(c) && Verified(c, lines, chain)
    ensures Verified(c, lines + ForecastLines(c, forecasts),
                     chain + EntryLines(c, Appended(c, forecasts, |lines| + 1, Head(Built(c, lines)))))
            <==> FreshIds(c, lines, forecasts)
  {
    AppendedMatches(c, lines, chain, forecasts);
    NewIds(c, lines, forecasts);
    DistinctConcat(Ids(c, lines), EventIds(forecasts));
  }

  /** A repeated id is never repaired: whatever is appended later, and whatever the chain file says. */
  lemma DuplicateIsPermanent(c: Codec, lines: seq<string>, more: seq<string>, chain: seq<string>)
    requires !Distinct(Ids(c, lines))
    ensures !Verified(c, lines + more, chain)
  {
    var i, j :| 0 <= i < j < |lines| && Ids(c, lines)[i] == Ids(c, lines)[j];
    assert Ids(c, lines + more)[i] == Ids(c, lines + more)[j];
  }

  // ----- the scan, line by line

  ghost predicate VerifiedTo(c: Codec, lines: seq<string>, built: seq<Entry>, chain: seq<string>, n: nat)
    requires n <= |lines| == |chain| == |built|
  {
    && (forall i :: 0 <= i < n ==> c.parseForecast(lines[i]).Some?)
    && (forall i :: 0 <= i < n ==> c.parseEntry(chain[i]) == Decoded(built[i]))
    && forall i, j :: 0 <= i < j < n ==> ForecastOf(c, lines[i]).eventId != ForecastOf(c, lines[j]).eventId
  }

  lemma VerifiedStep(c: Codec, lines: seq<string>, built: seq<Entry>, chain: seq<string>, n: nat)
    requires n < |lines| == |chain| == |built| && VerifiedTo(c, lines, built, chain, n)
    ensures VerifiedTo(c, lines, built, chain, n + 1) <==>
            && c.parseForecast(lines[n]).Some?
            && c.parseEntry(chain[n]) == Decoded(built[n])
            && forall i :: 0 <= i < n ==> ForecastOf(c, lines[i]).eventId != ForecastOf(c, lines[n]).eventId
  {
  }

  lemma VerifiedIsVerifiedTo(c: Codec, lines: seq<string>, chain: seq<string>, n: nat)
    requires n <= |lines| == |chain|
    ensures Verified(c, lines, chain) ==> VerifiedTo(c, lines, Built(c, lines), chain, n)
    ensures n == |lines| && VerifiedTo(c, lines, Built(c, lines), chain, n) ==> Verified(c, lines, chain)
  {
    var ids := Ids(c, lines);
    assert forall i :: 0 <= i < |lines| ==> ids[i] == ForecastOf(c, lines[i]).eventId;
  }

  // ----- the code

  datatype Status = Status(count: nat, lastHash: string)

  /** The two files, as their non-blank lines. */
  class ForwardLedger {
    const codec: Codec
    var forecastLines: seq<string>
    var chainLines: seq<string>

    constructor (codec: Codec, forecastLines: seq<string>, chainLines: seq<string>)
      ensures this.codec == codec && this.forecastLines == forecastLines && this.chainLines == chainLines
    {
      this.codec, this.forecastLines, this.chainLines := codec, forecastLines, chainLines;
    }

    /** _build_forecast_chain_entries. */
    method BuildEntries(lines: seq<string>) returns (r: Result<seq<Entry>>)
      ensures r == if Parses(codec, lines) then Ok(Built(codec, lines)) else Raised(ValueError)
    {
      var entries: seq<Entry> := [];
      var previous := GENESIS;
      for i := 0 to |lines|
        invariant Parses(codec, lines[..i])
        invariant entries == Built(codec, lines[..i]) && previous == Head(entries)
      {
        var f := codec.parseForecast(lines[i]);
        if f.None? { return Raised(ValueError); }
        assert lines[..i + 1][..i] == lines[..i];
        var entry := ChainEntry(codec, i + 1, f.value, lines[i], previous);
        entries := entries + [entry];
        previous := entry.chainHash;
      }
      assert lines[..|lines|] == lines;
      r := Ok(entries);
    }

    /** The chain file after the optional bootstrap. */
    ghost function Bootstrapped(bootstrap: bool): seq<string>
      reads this
    {
      if forecastLines != [] && chainLines == [] && bootstrap && Parses(codec, forecastLines)
      then EntryLines(codec, Built(codec, forecastLines)) else chainLines
    }

    /** verify_forecast_chain. */
    method VerifyForecastChain(bootstrap: bool) returns (r: Result<Status>)
      requires RoundTrips(codec)
      modifies this`chainLines
      ensures chainLines == old(Bootstrapped(bootstrap))
      ensures r.Ok? <==> Verified(codec, forecastLines, chainLines)
      ensures r.Ok? ==> r.value == Status(|forecastLines|, Head(Built(codec, forecastLines)))
    {
      if forecastLines != [] && chainLines == [] && bootstrap {
        var entries := BuildEntries(forecastLines);
        if entries.Raised? { return Raised(entries.error); }
        chainLines := EntryLines(codec, entries.value);
      }
      if forecastLines == [] {
        if chainLines != [] { return Raised(LedgerError); }
        return Ok(Status(0, GENESIS));
      }
      if |forecastLines| != |chainLines| { return Raised(LedgerError); }
      r := CheckLines();
    }

    /** The scan of verify_forecast_chain over files of equal length. */
    method CheckLines() returns (r: Result<Status>)
      requires |forecastLines| == |chainLines|
      ensures r.Ok? <==> Verified(codec, forecastLines, chainLines)
      ensures r.Ok? ==> r.value == Status(|forecastLines|, Head(Built(codec, forecastLines)))
    {
      var previous := GENESIS;
      var seen: set<string> := {};
      ghost var lines, built := forecastLines, Built(codec, forecastLines);
      for i := 0 to |forecastLines|
        invariant previous == Head(built[..i])
        invariant VerifiedTo(codec, lines, built, chainLines, i)
        invariant seen == set j | 0 <= j < i :: ForecastOf(codec, lines[j]).eventId
      {
        VerifiedStep(codec, lines, built, chainLines, i);
        VerifiedIsVerifiedTo(codec, lines, chainLines, i + 1);
        EntryFrom(codec, lines, i);
        var forecast := codec.parseForecast(forecastLines[i]);
        if forecast.None? { return Raised(ValueError); }
        var entry := codec.parseEntry(chainLines[i]);
        if entry.Malformed? { return Raised(ValueError); }
        var expected := ChainEntry(codec, i + 1, forecast.value, forecastLines[i], previous);
        if entry != Decoded(expected) { return Raised(LedgerError); }
        if forecast.value.eventId in seen { return Raised(LedgerError); }
        seen := seen + {forecast.value.eventId};
        previous := expected.chainHash;
      }
      VerifiedIsVerifiedTo(codec, lines, chainLines, |lines|);
      assert built[..|lines|] == built;
      r := Ok(Status(|forecastLines|, previous));
    }

    /** The entries of a batch, each linked to the one before. */
    method NewEntries(forecasts: seq<LedgerForecast>, start: nat, last: string) returns (entries: seq<Entry>)
      ensures entries == Appended(codec, forecasts, start, last)
    {
      entries := [];
      var previous := last;
      for i := 0 to |forecasts|
        invariant entries == Appended(codec, forecasts[..i], start, last)
        invariant previous == Link(last, entries)
      {
        AppendedSnoc(codec, forecasts[..i], forecasts[i], start, last);
        assert forecasts[..i + 1] == forecasts[..i] + [forecasts[i]];
        var entry := ChainEntry(codec, start + i, forecasts[i], codec.forecastLine(forecasts[i]), previous);
        entries := entries + [entry];
        previous := entry.chainHash;
      }
      assert forecasts[..|forecasts|] == forecasts;
    }

    /**
     * _append_forecasts. Both files are written before the final verification, so a batch with a repeated
     * id raises but stays in the ledger.
     */
    method AppendForecasts(forecasts: seq<LedgerForecast>) returns (r: Result<()>)
      requires RoundTrips(codec)
      modifies this
      ensures var chain := old(Bootstrapped(true));
              if !Verified(codec, old(forecastLines), chain)
              then r.Raised? && forecastLines == old(forecastLines) && chainLines == chain
              else
                && forecastLines == old(forecastLines) + ForecastLines(codec, forecasts)
                && chainLines == chain + EntryLines(codec,
                     Appended(codec, forecasts, |old(forecastLines)| + 1, Head(Built(codec, old(forecastLines)))))
                && (r.Ok? <==> FreshIds(codec, old(forecastLines), forecasts))
                && (r.Ok? <==> Verified(codec, forecastLines, chainLines))
    {
      ghost var lines, chain := forecastLines, Bootstrapped(true);
      if forecasts == [] {
        var checked := VerifyForecastChain(true);
        r := if checked.Ok? then Ok(()) else Raised(checked.error);
        assert lines + ForecastLines(codec, forecasts) == lines;
        assert chain + EntryLines(codec, []) == chain;
        return;
      }
      var status := VerifyForecastChain(true);
      if status.Raised? { return Raised(status.error); }
      var entries := NewEntries(forecasts, status.value.count + 1, status.value.lastHash);
      AppendVerifiesIff(codec, lines, chain, forecasts);
      forecastLines := forecastLines + ForecastLines(codec, forecasts);
      chainLines := chainLines + EntryLines(codec, entries);
      assert forecastLines != [] && !(chainLines == []);
      var final := VerifyForecastChain(false);
      r := if final.Ok? then Ok(()) else Raised(final.error);
    }
  }
}
