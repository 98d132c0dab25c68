/** The part of `main` between argument parsing and output: build the work
    list (the `--domain` value, or the non-blank stripped lines of the
    `--file`), fetch each domain in turn, append every result list to
    `all_results`, and finish with `sorted(set(all_results))`. */
module Driver {
  import opened Options
  import opened PyStr
  import opened Sorting
  import opened Extraction
  import opened Fetch
  import opened Lists

  /** The required, mutually exclusive `--domain` and `--file` arguments.
      For `--file`, `lines` are the lines iterating the opened file yields,
      or `None` when the file cannot be opened or read. */
  datatype Target = DomainArg(domain: string) | FileArg(path: string, lines: Option<seq<string>>)

  /** How `main` ends before printing and saving: with the list of unique
      hostnames, or with `sys.exit(1)` because the file could not be read. */
  datatype RunResult = Finished(unique: seq<string>) | FileError

  /** What one line contributes to the comprehension below. */
  function LineDomain(line: string): (r: seq<string>)
    ensures |r| <= 1
    ensures forall i :: 0 <= i < |r| ==> r[i] != [] && Trimmed(r[i])
  {
    var d := Strip(line);
    if d == [] then [] else [d]
  }

  /** `[line.strip() for line in f if line.strip()]` */
  function DomainList(lines: seq<string>): (r: seq<string>)
    ensures |r| <= |lines|
    ensures forall i :: 0 <= i < |r| ==> r[i] != [] && Trimmed(r[i])
  {
    if lines == [] then []
    else LineDomain(lines[0]) + DomainList(lines[1..])
  }

  lemma DomainListCons(line: string, rest: seq<string>)
    ensures DomainList([line] + rest) == LineDomain(line) + DomainList(rest)
  {
    assert ([line] + rest)[1..] == rest;
  }

  /** The comprehension keeps order: the domains of `a + b` are those of
      `a` followed by those of `b`. */
  lemma {:induction false} DomainListAppend(a: seq<string>, b: seq<string>)
    ensures DomainList(a + b) == DomainList(a) + DomainList(b)
  {
    if a == [] {
      assert a + b == b;
    } else {
      assert a + b == [a[0]] + (a[1..] + b);
      assert a == [a[0]] + a[1..];
      DomainListCons(a[0], a[1..] + b);
      DomainListCons(a[0], a[1..]);
      DomainListAppend(a[1..], b);
      ConcatAssociative(LineDomain(a[0]), DomainList(a[1..]), DomainList(b));
    }
  }

  lemma ConcatAssociative(h: seq<string>, x: seq<string>, y: seq<string>)
    ensures h + (x + y) == (h + x) + y
  {
  }

  /** Each line on its own contributes its stripped form, unless that is
      empty; together with `DomainListAppend` this fixes the list. */
  lemma DomainListLine(line: string)
    ensures DomainList([line]) == if Strip(line) == [] then [] else [Strip(line)]
  {
    assert [line][1..] == [];
  }

  /** A domain is listed exactly when it is the non-empty stripped form of
      some line. */
  lemma {:induction false} DomainListMembers(lines: seq<string>, d: string)
    ensures d in DomainList(lines) <==> d != [] && exists i :: 0 <= i < |lines| && Strip(lines[i]) == d
  {
    if lines != [] {
      DomainListMembers(lines[1..], d);
      if exists i :: 0 <= i < |lines| && Strip(lines[i]) == d {
        var i :| 0 <= i < |lines| && Strip(lines[i]) == d;
        if i > 0 {
          assert lines[1..][i - 1] == lines[i];
        }
      }
      if exists i :: 0 <= i < |lines[1..]| && Strip(lines[1..][i]) == d {
        var i :| 0 <= i < |lines[1..]| && Strip(lines[1..][i]) == d;
        assert lines[i + 1] == lines[1..][i];
      }
    }
  }

  /** A file whose lines are all blank gives no domain. */
  lemma {:induction false} BlankLinesNoDomains(lines: seq<string>)
    requires forall i :: 0 <= i < |lines| ==> SpaceBetween(lines[i], 0, |lines[i]|)
    ensures DomainList(lines) == []
  {
    if lines != [] {
      BlankLinesNoDomains(lines[1..]);
    }
  }

  /** The domains `main` fetches, in order, or `None` when the file cannot
      be read. An empty `--domain` or `--file` value is falsy in Python, so
      neither branch runs and nothing is fetched. */
  function WorkList(target: Target): Option<seq<string>>
  {
    match target
    case DomainArg(d) => Some(if d == [] then [] else [d])
    case FileArg(path, lines) =>
      if path == [] then Some([])
      else if lines.None? then None
      else Some(DomainList(lines.value))
  }

  /** The list `fetch_subdomains` returns for each domain, in order.
      `service(i)` answers the attempts for the `i`-th domain. */
  function Results(domains: seq<string>, retries: int, service: nat -> nat -> Outcome): seq<seq<string>>
  {
    seq(|domains|, i requires 0 <= i < |domains| => FetchReport(domains[i], retries, service(i)).hosts)
  }

  /** `all_results` after the loop. */
  function AllResults(domains: seq<string>, retries: int, service: nat -> nat -> Outcome): seq<string>
  {
    Concat(Results(domains, retries, service))
  }

  /** `unique_subs = sorted(set(all_results))` */
  function Aggregate(domains: seq<string>, retries: int, service: nat -> nat -> Outcome): (r: seq<string>)
    ensures StrictlyIncreasing(r)
  {
    SortedUnique(AllResults(domains, retries, service))
  }

  /** `x` is in the list `fetch_subdomains` returns for some domain. */
  ghost predicate Found(x: string, domains: seq<string>, retries: int, service: nat -> nat -> Outcome)
  {
    exists i :: 0 <= i < |domains| && x in FetchReport(domains[i], retries, service(i)).hosts
  }

  lemma AllResultsMembers(domains: seq<string>, retries: int, service: nat -> nat -> Outcome, x: string)
    ensures x in AllResults(domains, retries, service) <==> Found(x, domains, retries, service)
  {
    var rs := Results(domains, retries, service);
    ConcatMembers(rs, x);
    if exists i :: 0 <= i < |rs| && x in rs[i] {
      var i :| 0 <= i < |rs| && x in rs[i];
      assert x in FetchReport(domains[i], retries, service(i)).hosts;
    }
    if Found(x, domains, retries, service) {
      var i :| 0 <= i < |domains| && x in FetchReport(domains[i], retries, service(i)).hosts;
      assert x in rs[i];
    }
  }

  /** The final list holds exactly the hostnames found for some domain of
      the work list, each once, in increasing order. */
  lemma AggregateMembers(domains: seq<string>, retries: int, service: nat -> nat -> Outcome, x: string)
    ensures x in Aggregate(domains, retries, service) <==> Found(x, domains, retries, service)
  {
    AllResultsMembers(domains, retries, service, x);
  }

  /** In `--file` mode every reported hostname is one of the listed
      domains or ends with `"." + ` one of them. */
  lemma FileResultsMatchDomains(lines: seq<string>, retries: int, service: nat -> nat -> Outcome, x: string)
    requires x in Aggregate(DomainList(lines), retries, service)
    ensures exists d :: d in DomainList(lines) && (x == d || EndsWith(x, "." + d))
  {
    var domains := DomainList(lines);
    AggregateMembers(domains, retries, service, x);
    var i :| 0 <= i < |domains| && x in FetchReport(domains[i], retries, service(i)).hosts;
    assert Trimmed(domains[i]) && domains[i] in domains;
    FetchMatchesDomain(domains[i], retries, service(i), x);
  }

  lemma AllResultsStep(domains: seq<string>, i: nat, retries: int, service: nat -> nat -> Outcome)
    requires i < |domains|
    ensures AllResults(domains[..i + 1], retries, service)
         == AllResults(domains[..i], retries, service) + FetchReport(domains[i], retries, service(i)).hosts
  {
    var rs := Results(domains[..i + 1], retries, service);
    assert rs[..i] == Results(domains[..i], retries, service) by {
      assert forall j :: 0 <= j < i ==> domains[..i + 1][j] == domains[..i][j];
    }
    assert rs[i] == FetchReport(domains[i], retries, service(i)).hosts;
  }

  /** Lines 83-99 of `main`. */
  method Run(target: Target, retries: int, service: nat -> nat -> Outcome) returns (result: RunResult)
    ensures result == match WorkList(target)
                      case None => FileError
                      case Some(domains) => Finished(Aggregate(domains, retries, service))
  {
    var allResults: seq<string> := [];
    var domains: seq<string> := [];
    if target.DomainArg? && target.domain != [] {
      var subs, attempts, sleeps := FetchSubdomains(target.domain, retries, service(0));
      allResults := allResults + subs;
      domains := [target.domain];
      AllResultsStep(domains, 0, retries, service);
      assert domains[..0] == [] && domains[..1] == domains;
      assert Results([], retries, service) == [];
    } else if target.FileArg? && target.path != [] {
      if target.lines.None? {
        return FileError;
      }
      domains := DomainList(target.lines.value);
      for i := 0 to |domains|
        invariant allResults == AllResults(domains[..i], retries, service)
      {
        var subs, attempts, sleeps := FetchSubdomains(domains[i], retries, service(i));
        allResults := allResults + subs;
        AllResultsStep(domains, i, retries, service);
      }
      assert domains[..|domains|] == domains;
    }
    assert WorkList(target) == Some(domains);
    assert allResults == AllResults(domains, retries, service);
    var unique := Sorted(set x | x in allResults);
    SortedOfSet(allResults, unique);
    return Finished(unique);
  }
}
