/** Hostname extraction from one decoded certificate-transparency response
    (the body of the successful attempt in `fetch_subdomains`). Each record
    contributes the `"\n"`-separated tokens of its `name_value`; a token is
    kept when, exactly as split and before any stripping, it is the domain
    or ends with `"." + domain`; the kept tokens are stripped, collected in
    a set and returned sorted. Nothing is lowercased and commas do not
    separate tokens. */
module Extraction {
  import opened Options
  import opened PyStr
  import opened Sorting
  import opened Lists

  /** One record of the decoded JSON array. Only its `name_value` field is
      read, and it may be missing. */
  datatype Entry = Entry(nameValue: Option<string>)

  /** `entry.get("name_value", "")` */
  function NameValue(e: Entry): string
  {
    if e.nameValue.Some? then e.nameValue.value else ""
  }

  /** `name_value.split("\n")` */
  function Tokens(e: Entry): seq<string>
  {
    Split(NameValue(e), '\n')
  }

  /** The test on a token as split: `sub.endswith(f".{domain}") or
      sub == domain`. */
  predicate Qualifies(sub: string, domain: string)
  {
    EndsWith(sub, "." + domain) || sub == domain
  }

  /** The stripped forms of the qualifying tokens, in token order. */
  function KeepTokens(tokens: seq<string>, domain: string): seq<string>
  {
    if tokens == [] then []
    else
      var last := tokens[|tokens| - 1];
      KeepTokens(tokens[..|tokens| - 1], domain) + (if Qualifies(last, domain) then [Strip(last)] else [])
  }

  /** Everything the nested loops add to the set, entry by entry. */
  function KeptAll(data: seq<Entry>, domain: string): seq<string>
  {
    if data == [] then []
    else KeptAll(data[..|data| - 1], domain) + KeepTokens(Tokens(data[|data| - 1]), domain)
  }

  /** The list the successful attempt returns: `sorted(subdomains)`. */
  function Extract(data: seq<Entry>, domain: string): (r: seq<string>)
    ensures StrictlyIncreasing(r)
  {
    SortedUnique(KeptAll(data, domain))
  }

  /** `x` is the stripped form of a qualifying token of record `e`. */
  ghost predicate Yields(x: string, e: Entry, domain: string)
  {
    exists t :: t in Tokens(e) && Qualifies(t, domain) && x == Strip(t)
  }

  /** `x` is the stripped form of a qualifying token of some record. */
  ghost predicate Contributes(x: string, data: seq<Entry>, domain: string)
  {
    exists i :: 0 <= i < |data| && Yields(x, data[i], domain)
  }

  lemma {:induction false} KeepTokensMembers(tokens: seq<string>, domain: string, x: string)
    ensures x in KeepTokens(tokens, domain) <==> exists t :: t in tokens && Qualifies(t, domain) && x == Strip(t)
  {
    if tokens != [] {
      var init, last := tokens[..|tokens| - 1], tokens[|tokens| - 1];
      KeepTokensMembers(init, domain, x);
      assert tokens == init + [last];
      if x in KeepTokens(tokens, domain) && x !in KeepTokens(init, domain) {
        assert last in tokens;
      }
    }
  }

  /** The list each record adds, record by record. */
  function PerRecord(data: seq<Entry>, domain: string): seq<seq<string>>
  {
    seq(|data|, i requires 0 <= i < |data| => KeepTokens(Tokens(data[i]), domain))
  }

  /** The records' lists, one after the other. */
  lemma {:induction false} KeptAllConcat(data: seq<Entry>, domain: string)
    ensures KeptAll(data, domain) == Concat(PerRecord(data, domain))
  {
    if data != [] {
      var n := |data| - 1;
      var rs := PerRecord(data, domain);
      assert rs[..n] == PerRecord(data[..n], domain) by {
        assert forall j :: 0 <= j < n ==> data[..n][j] == data[j];
      }
      KeptAllConcat(data[..n], domain);
    }
  }

  lemma KeptAllMembers(data: seq<Entry>, domain: string, x: string)
    ensures x in KeptAll(data, domain)
        <==> exists i :: 0 <= i < |data| && x in KeepTokens(Tokens(data[i]), domain)
  {
    var rs := PerRecord(data, domain);
    KeptAllConcat(data, domain);
    ConcatMembers(rs, x);
    if exists i :: 0 <= i < |rs| && x in rs[i] {
      var i :| 0 <= i < |rs| && x in rs[i];
      assert x in KeepTokens(Tokens(data[i]), domain);
    }
    if exists i :: 0 <= i < |data| && x in KeepTokens(Tokens(data[i]), domain) {
      var i :| 0 <= i < |data| && x in KeepTokens(Tokens(data[i]), domain);
      assert x in rs[i];
    }
  }

  /** Soundness and completeness: a hostname is returned exactly when it
      is the stripped form of a `"\n"`-separated token, of some record's
      `name_value`, that equals the domain or ends with `"." + domain`
      before stripping. */
  lemma ExtractMembers(data: seq<Entry>, domain: string, x: string)
    ensures x in Extract(data, domain) <==> Contributes(x, data, domain)
  {
    KeptAllMembers(data, domain, x);
    if x in KeptAll(data, domain) {
      var i :| 0 <= i < |data| && x in KeepTokens(Tokens(data[i]), domain);
      KeepTokensMembers(Tokens(data[i]), domain, x);
      assert Yields(x, data[i], domain);
    }
    if Contributes(x, data, domain) {
      var i :| 0 <= i < |data| && Yields(x, data[i], domain);
      KeepTokensMembers(Tokens(data[i]), domain, x);
      assert x in KeepTokens(Tokens(data[i]), domain);
    }
  }

  /** Stripping a qualifying token never cuts into its matched suffix
      when the domain has no surrounding whitespace. */
  lemma StripQualifying(t: string, domain: string)
    requires Trimmed(domain) && Qualifies(t, domain)
    ensures Strip(t) == domain || EndsWith(Strip(t), "." + domain)
  {
    if t == domain {
      StripTrimmed(domain);
    } else {
      var q := "." + domain;
      var p := t[..|t| - |q|];
      assert t == p + q;
      assert !IsSpace('.');
      assert q[|q| - 1] == if domain == [] then '.' else domain[|domain| - 1];
      StripKeepsCore(p, q);
    }
  }

  /** For a domain without surrounding whitespace, every returned hostname
      is the domain or ends with `"." + domain`. */
  lemma ExtractMatchesDomain(data: seq<Entry>, domain: string, x: string)
    requires Trimmed(domain)
    requires x in Extract(data, domain)
    ensures x == domain || EndsWith(x, "." + domain)
  {
    ExtractMembers(data, domain, x);
    var i :| 0 <= i < |data| && Yields(x, data[i], domain);
    var t :| t in Tokens(data[i]) && Qualifies(t, domain) && x == Strip(t);
    StripQualifying(t, domain);
  }

  lemma {:induction false} KeptAllAppend(a: seq<Entry>, b: seq<Entry>, domain: string)
    ensures KeptAll(a + b, domain) == KeptAll(a, domain) + KeptAll(b, domain)
  {
    if b != [] {
      var n := |b| - 1;
      KeptAllAppend(a, b[..n], domain);
      assert (a + b)[..|a + b| - 1] == a + b[..n];
      assert (a + b)[|a + b| - 1] == b[n];
    } else {
      assert a + b == a;
    }
  }

  /** A record without `name_value` reads as `""`, whose only token `""`
      matches no non-empty domain, so it changes nothing wherever it
      stands. */
  lemma MissingNameValueIgnored(a: seq<Entry>, b: seq<Entry>, domain: string)
    requires domain != ""
    ensures Extract(a + [Entry(None)] + b, domain) == Extract(a + b, domain)
  {
    var none := [Entry(None)];
    assert KeptAll(none, domain) == [] by {
      assert Tokens(Entry(None)) == [""];
      assert !Qualifies("", domain);
      assert [""][..0] == [];
      assert KeepTokens([""], domain) == [];
      assert none[..0] == [] && none[0] == Entry(None);
    }
    calc {
      KeptAll(a + none + b, domain);
      { KeptAllAppend(a + none, b, domain); }
      KeptAll(a + none, domain) + KeptAll(b, domain);
      { KeptAllAppend(a, none, domain); }
      KeptAll(a, domain) + KeptAll(b, domain);
      { KeptAllAppend(a, b, domain); }
      KeptAll(a + b, domain);
    }
  }

  /** The result depends only on which records occur, not on their order
      or on repetitions: the tokens go into a set before sorting. */
  lemma ExtractIgnoresOrder(a: seq<Entry>, b: seq<Entry>, domain: string)
    requires forall e :: e in a <==> e in b
    ensures Extract(a, domain) == Extract(b, domain)
  {
    forall x
      ensures x in Extract(a, domain) <==> x in Extract(b, domain)
    {
      ExtractMembers(a, domain, x);
      ExtractMembers(b, domain, x);
      if Contributes(x, a, domain) {
        var i :| 0 <= i < |a| && Yields(x, a[i], domain);
        assert a[i] in b;
        var j :| 0 <= j < |b| && b[j] == a[i];
      }
      if Contributes(x, b, domain) {
        var j :| 0 <= j < |b| && Yields(x, b[j], domain);
        assert b[j] in a;
        var i :| 0 <= i < |a| && a[i] == b[j];
      }
    }
    StrictlyIncreasingUnique(Extract(a, domain), Extract(b, domain));
  }

  /** A record whose `name_value` is two lines `t1` and `t2`, where only
      `t1` qualifies, yields exactly the stripped `t1`. */
  lemma FirstOfTwoLines(t1: string, t2: string, domain: string)
    requires '\n' !in t1 && '\n' !in t2
    requires Qualifies(t1, domain) && !Qualifies(t2, domain)
    ensures Extract([Entry(Some(t1 + "\n" + t2))], domain) == [Strip(t1)]
  {
    var e := Entry(Some(t1 + "\n" + t2));
    SplitCons(t1, t2, '\n');
    SplitNone(t2, '\n');
    assert Tokens(e) == [t1, t2];
    assert [t1, t2][..1] == [t1] && [t1][..0] == [];
    assert KeepTokens([t1], domain) == [Strip(t1)];
    assert KeepTokens([t1, t2], domain) == [Strip(t1)];
    assert [e][..0] == [];
    assert KeptAll([e], domain) == [Strip(t1)];
    assert [Strip(t1)][..0] == [];
    assert SortedUnique([Strip(t1)]) == Insert(Strip(t1), []);
  }

  /** A record whose `name_value` is one qualifying line yields that line,
      stripped and otherwise as written: no letter is lowercased. */
  lemma SingleLineVerbatim(t: string, domain: string)
    requires '\n' !in t && Qualifies(t, domain)
    ensures Extract([Entry(Some(t))], domain) == [Strip(t)]
  {
    var e := Entry(Some(t));
    SplitNone(t, '\n');
    assert Tokens(e) == [t];
    assert [t][..0] == [];
    assert KeepTokens([t], domain) == [Strip(t)];
    assert [e][..0] == [];
    assert KeptAll([e], domain) == KeptAll([], domain) + KeepTokens(Tokens(e), domain);
    assert [Strip(t)][..0] == [];
    assert SortedUnique([Strip(t)]) == Insert(Strip(t), []);
  }

  /** A comma does not separate names: two names joined by `","` on one
      line come back as a single hostname when the second one matches. */
  lemma CommaDoesNotSeparate(h1: string, h2: string, domain: string)
    requires '\n' !in h1 && '\n' !in h2 && EndsWith(h2, "." + domain)
    ensures Extract([Entry(Some(h1 + "," + h2))], domain) == [Strip(h1 + "," + h2)]
  {
    var t := h1 + "," + h2;
    var q := "." + domain;
    assert t[|t| - |q|..] == h2[|h2| - |q|..];
    SingleLineVerbatim(t, domain);
  }

  /** A line is tested before it is stripped: whitespace in front of a
      matching name is cut from the result, but the same name followed by
      whitespace no longer ends with the domain and is dropped. */
  lemma TestedBeforeStripping(host: string, domain: string)
    requires '\n' !in host && Trimmed(host) && EndsWith(host, "." + domain)
    ensures Extract([Entry(Some(" " + host + "\n" + host + " "))], domain) == [host]
  {
    var a, b := " " + host, host + " ";
    assert '\n' !in a && '\n' !in b;
    assert Qualifies(a, domain) by {
      assert a[|a| - |"." + domain|..] == host[|host| - |"." + domain|..];
    }
    assert !Qualifies(b, domain) by {
      var q := "." + domain;
      assert host[|host| - |q|..][|q| - 1] == host[|host| - 1];
      assert !IsSpace(q[|q| - 1]);
      assert b[|b| - 1] == ' ' && IsSpace(' ');
      assert |b| > |domain|;
    }
    StripLeadingSpace(" ", host);
    assert " " + host + "\n" + host + " " == a + "\n" + b;
    FirstOfTwoLines(a, b, domain);
  }

  /** The domain is matched as given, not stripped. A domain with leading
      whitespace `p` matches a token equal to it, and stripping that token
      leaves a hostname that is neither the domain nor ends with
      `"." + domain`. */
  lemma UntrimmedDomainEscapesSuffix(p: string, host: string)
    requires p != [] && SpaceBetween(p, 0, |p|) && '\n' !in p
    requires host != [] && '\n' !in host && Trimmed(host)
    ensures Extract([Entry(Some(p + host))], p + host) == [host]
    ensures host != p + host && !EndsWith(host, "." + (p + host))
  {
    var t := p + host;
    assert Qualifies(t, t);
    StripLeadingSpace(p, host);
    SingleLineVerbatim(t, t);
  }

  lemma KeepTokensStep(tokens: seq<string>, j: nat, domain: string)
    requires j < |tokens|
    ensures KeepTokens(tokens[..j + 1], domain)
         == KeepTokens(tokens[..j], domain) + (if Qualifies(tokens[j], domain) then [Strip(tokens[j])] else [])
  {
    assert tokens[..j + 1][..j] == tokens[..j];
  }

  lemma KeptAllStep(data: seq<Entry>, i: nat, domain: string)
    requires i < |data|
    ensures KeptAll(data[..i + 1], domain) == KeptAll(data[..i], domain) + KeepTokens(Tokens(data[i]), domain)
  {
    assert data[..i + 1][..i] == data[..i];
  }

  /** The inner loop of lines 45-47: adds the stripped form of every
      qualifying token of one record to the set. */
  method AddQualifying(subdomains: set<string>, tokens: seq<string>, domain: string)
    returns (grown: set<string>)
    ensures forall y :: y in grown <==> y in subdomains || y in KeepTokens(tokens, domain)
  {
    grown := subdomains;
    for j := 0 to |tokens|
      invariant forall y :: y in grown <==> y in subdomains || y in KeepTokens(tokens[..j], domain)
    {
      var sub := tokens[j];
      KeepTokensStep(tokens, j, domain);
      if Qualifies(sub, domain) {
        grown := grown + {Strip(sub)};
      }
    }
    assert tokens[..|tokens|] == tokens;
  }

  /** The loops of lines 42-48: every qualifying token of every record,
      stripped, goes into a set, and the set is returned sorted. */
  method ExtractHostnames(data: seq<Entry>, domain: string) returns (hosts: seq<string>)
    ensures hosts == Extract(data, domain)
  {
    var subdomains: set<string> := {};
    for i := 0 to |data|
      invariant forall y :: y in subdomains <==> y in KeptAll(data[..i], domain)
    {
      subdomains := AddQualifying(subdomains, Tokens(data[i]), domain);
      KeptAllStep(data, i, domain);
    }
    assert data[..|data|] == data;
    hosts := Sorted(subdomains);
    SortedOfSet(KeptAll(data, domain), hosts);
  }
}
