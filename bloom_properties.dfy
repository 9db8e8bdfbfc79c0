/**
 * Properties of the data-file parser, the public suffix rule set, the
 * registrable-domain resolver and the blocking decision of module Bloom.
 */
module BloomProperties {
  import opened Wrappers
  import opened PyStrings
  import opened Bloom

  // ---------------------------------------------------------------------
  // Data files

  /** Lines are read independently: the tokens of two files read one after
    * the other are the tokens of each, in order. */
  lemma {:induction false} DataTokensAppend(a: seq<string>, b: seq<string>)
    ensures DataTokens(a + b) == DataTokens(a) + DataTokens(b)
    decreases |b|
  {
    if b == [] {
      assert a + b == a;
    } else {
      var init := b[..|b| - 1];
      assert (a + b)[..|a + b| - 1] == a + init;
      assert (a + b)[|a + b| - 1] == b[|b| - 1];
      DataTokensAppend(a, init);
    }
  }

  /** One line yields its first space-delimited token when its stripped
    * text is a data line, and nothing when it is blank or a comment. */
  lemma DataTokensOfLine(line: string)
    ensures DataTokens([line]) ==
              if IsDataLine(Strip(line)) then [Split(Strip(line), ' ')[0]] else []
  {
    assert [line][..0] == [];
  }

  /** A blank or comment line between two parts of a file contributes
    * nothing. */
  lemma SkippedLineContributesNothing(before: seq<string>, line: string, after: seq<string>)
    requires !IsDataLine(Strip(line))
    ensures DataTokens(before + [line] + after) == DataTokens(before) + DataTokens(after)
  {
    DataTokensAppend(before + [line], after);
    DataTokensAppend(before, [line]);
    DataTokensOfLine(line);
  }

  /** A data line contributes exactly one token, in its place. */
  lemma KeptLineContributesOneToken(before: seq<string>, line: string, after: seq<string>)
    requires IsDataLine(Strip(line))
    ensures DataTokens(before + [line] + after) ==
              DataTokens(before) + [Split(Strip(line), ' ')[0]] + DataTokens(after)
  {
    DataTokensAppend(before + [line], after);
    DataTokensAppend(before, [line]);
    DataTokensOfLine(line);
  }

  /** Line `line` of a data file yields the token `t`. */
  predicate YieldsToken(line: string, t: string) {
    IsDataLine(Strip(line)) && t == Split(Strip(line), ' ')[0]
  }

  /** The tokens of one line are exactly what that line yields. */
  lemma InDataTokensOfLine(line: string, t: string)
    ensures t in DataTokens([line]) <==> YieldsToken(line, t)
  {
    DataTokensOfLine(line);
  }

  /** A token is read from a file exactly when some line of it yields that
    * token. */
  lemma {:induction false} InDataTokens(fileLines: seq<string>, t: string)
    ensures t in DataTokens(fileLines) <==> exists line :: line in fileLines && YieldsToken(line, t)
    decreases |fileLines|
  {
    if fileLines != [] {
      var init := fileLines[..|fileLines| - 1];
      var last := fileLines[|fileLines| - 1];
      assert fileLines == init + [last];
      assert t in DataTokens(fileLines) <==> t in DataTokens(init) || YieldsToken(last, t) by {
        DataTokensAppend(init, [last]);
        InDataTokensOfLine(last, t);
      }
      InDataTokens(init, t);
      assert (exists line :: line in fileLines && YieldsToken(line, t)) <==>
             (exists line :: line in init && YieldsToken(line, t)) || YieldsToken(last, t) by {
        assert forall line :: line in fileLines <==> line in init || line == last;
      }
    }
  }

  /** The rule set depends only on which lines the suffix list holds, not on
    * their order or how often each occurs, as `frozenset` promises. */
  lemma SuffixRuleSetDependsOnlyOnLines(a: seq<string>, b: seq<string>)
    requires forall line :: line in a <==> line in b
    ensures SuffixRuleSet(a) == SuffixRuleSet(b)
  {
    forall t
      ensures t in DataTokens(a) <==> t in DataTokens(b)
    {
      InDataTokens(a, t);
      InDataTokens(b, t);
    }
  }

  // ---------------------------------------------------------------------
  // The resolver

  /** The resolved domain is a run of whole labels at the end of the host:
    * the host itself, or what follows one of its dots. */
  lemma ResolvedIsHostSuffix(rules: set<string>, host: string)
    requires Resolve(rules, host).Some?
    ensures var d := Resolve(rules, host).value;
            |d| <= |host| && host[|host| - |d|..] == d &&
            (d == host || host[|host| - |d| - 1] == '.')
  {
    var labels := Split(host, '.');
    var i := FirstMatch(rules, labels, 0).value;
    ResolveAtFirstMatch(rules, host, i);
    var d := Resolve(rules, host).value;
    var j := if ExceptionForm(labels, i) in rules then i else if i >= 1 then i - 1 else 0;
    assert d == Join(labels[j..], '.');
    if j > 0 {
      assert labels == labels[..j] + labels[j..];
      JoinAppend(labels[..j], labels[j..], '.');
      assert host == Join(labels[..j], '.') + ['.'] + d;
    } else {
      assert labels[j..] == labels;
    }
  }

  /** Exception rules take priority: at the first matching candidate an
    * exception rule makes the candidate itself the result, whatever normal
    * or wildcard rule also matches there. */
  lemma ExceptionPriority(rules: set<string>, host: string, i: nat)
    requires IsFirstMatch(rules, Split(host, '.'), i)
    requires ExceptionForm(Split(host, '.'), i) in rules
    ensures Resolve(rules, host) == Some(FullForm(Split(host, '.'), i))
  {
    ResolveAtFirstMatch(rules, host, i);
  }

  /** A normal or wildcard match below the whole host gives the matched
    * suffix with exactly one more label in front. */
  lemma MatchAddsOneLabel(rules: set<string>, host: string, i: nat)
    requires IsFirstMatch(rules, Split(host, '.'), i)
    requires ExceptionForm(Split(host, '.'), i) !in rules
    requires i >= 1
    ensures var labels := Split(host, '.');
            Resolve(rules, host) == Some(labels[i - 1] + "." + FullForm(labels, i))
  {
    var labels := Split(host, '.');
    ResolveAtFirstMatch(rules, host, i);
    assert labels[i - 1..][1..] == labels[i..];
  }

  /** Any match of the whole host resolves to the whole host. */
  lemma WholeHostMatch(rules: set<string>, host: string)
    requires MatchesAt(rules, Split(host, '.'), 0)
    ensures Resolve(rules, host) == Some(host)
  {
    var labels := Split(host, '.');
    ResolveAtFirstMatch(rules, host, 0);
    assert labels[0..] == labels;
  }

  /** A host that is itself a rule resolves to itself. */
  lemma PublicSuffixResolvesToItself(rules: set<string>, host: string)
    requires host in rules
    ensures Resolve(rules, host) == Some(host)
  {
    var labels := Split(host, '.');
    assert labels[0..] == labels;
    assert FullForm(labels, 0) == host;
    WholeHostMatch(rules, host);
  }

  /** A host without dots is tried once, against itself, its exception form
    * and the bare rule `*`. */
  lemma SingleLabelHost(rules: set<string>, host: string)
    requires '.' !in host
    ensures Resolve(rules, host).None? <==> host !in rules && "!" + host !in rules && "*" !in rules
  {
    SplitSeparatorFree(host, '.');
    var labels := Split(host, '.');
    assert labels[0..] == [host];
    assert labels[1..] == [];
    assert ["*"] + labels[1..] == ["*"];
  }

  /** With the bare rule `*` every host resolves: the last label always
    * matches it. */
  lemma StarRuleMatchesEverything(rules: set<string>, host: string)
    requires "*" in rules
    ensures Resolve(rules, host).Some?
  {
    var labels := Split(host, '.');
    var last := |labels| - 1;
    assert labels[last + 1..] == [];
    assert ["*"] + labels[last + 1..] == ["*"];
    assert MatchesAt(rules, labels, last);
  }

  /** Two rule sets that match the same candidates find the same first one. */
  lemma {:induction false} FirstMatchAgrees(r1: set<string>, r2: set<string>, labels: seq<string>, from: nat)
    requires from <= |labels|
    requires forall i :: from <= i < |labels| ==> MatchesAt(r1, labels, i) == MatchesAt(r2, labels, i)
    ensures FirstMatch(r1, labels, from) == FirstMatch(r2, labels, from)
    decreases |labels| - from
  {
    if from < |labels| {
      FirstMatchAgrees(r1, r2, labels, from + 1);
    }
  }

  /** None of the three forms tried for a candidate is `local` unless the
    * candidate is the host's last label and that label is `local`. */
  lemma FormsAreNotLocal(labels: seq<string>, i: nat)
    requires i < |labels| && labels[|labels| - 1] != LOCAL
    ensures ExceptionForm(labels, i) != LOCAL
    ensures FullForm(labels, i) != LOCAL
    ensures WildcardForm(labels, i) != LOCAL
  {
    assert ExceptionForm(labels, i)[0] == '!';
    assert WildcardForm(labels, i)[0] == '*';
    if |labels[i..]| >= 2 {
      SeparatorInJoin(labels[i..], '.');
      assert '.' !in LOCAL;
    } else {
      assert labels[i..] == [labels[|labels| - 1]];
    }
  }

  /** Removing the `local` rule changes no candidate's match unless the
    * last label is `local`. */
  lemma MatchesIgnoreLocalRule(rules: set<string>, labels: seq<string>)
    requires labels != [] && labels[|labels| - 1] != LOCAL
    ensures forall i :: 0 <= i < |labels| ==>
              MatchesAt(rules, labels, i) == MatchesAt(rules - {LOCAL}, labels, i)
  {
    forall i | 0 <= i < |labels|
      ensures MatchesAt(rules, labels, i) == MatchesAt(rules - {LOCAL}, labels, i)
    {
      FormsAreNotLocal(labels, i);
    }
  }

  /** Removing the `local` rule does not change how a host resolves unless
    * the host's last label is `local`. */
  lemma ResolveIgnoresLocalRule(rules: set<string>, host: string)
    requires LastLabel(host) != LOCAL
    ensures Resolve(rules, host) == Resolve(rules - {LOCAL}, host)
  {
    var labels := Split(host, '.');
    var fewer := rules - {LOCAL};
    MatchesIgnoreLocalRule(rules, labels);
    FirstMatchAgrees(rules, fewer, labels, 0);
    var m := FirstMatch(rules, labels, 0);
    if m.Some? {
      var i := m.value;
      FormsAreNotLocal(labels, i);
      assert IsFirstMatch(rules, labels, i) && IsFirstMatch(fewer, labels, i);
      ResolveAtFirstMatch(rules, host, i);
      ResolveAtFirstMatch(fewer, host, i);
    }
  }

  /** The `local` rule that the suffix list parser appends never changes a
    * blocking decision: hosts under `local` are blocked by their top-level
    * domain before any rule is consulted, and no other host can match it. */
  lemma LocalRuleNeverDecides(rules: set<string>, bloom: string -> bool, host: string)
    ensures IsBlocked(rules, bloom, host) == IsBlocked(rules - {LOCAL}, bloom, host)
  {
    if LastLabel(host) != LOCAL {
      ResolveIgnoresLocalRule(rules, host);
    }
  }

  // ---------------------------------------------------------------------
  // Worked examples

  lemma MultiLevelSuffixLabels()
    ensures Split("www.example.co.uk", '.') == ["www", "example", "co", "uk"]
  {
    var labels := ["www", "example", "co", "uk"];
    assert Join(labels, '.') == "www.example.co.uk";
    SplitJoin(labels, '.');
  }

  lemma MultiLevelSuffixMatch()
    ensures IsFirstMatch({"uk", "co.uk", LOCAL}, ["www", "example", "co", "uk"], 2)
    ensures RegistrableAt({"uk", "co.uk", LOCAL}, ["www", "example", "co", "uk"], 2) == "example.co.uk"
  {
    var rules: set<string> := {"uk", "co.uk", LOCAL};
    var labels := ["www", "example", "co", "uk"];
    assert !MatchesAt(rules, labels, 0);
    assert !MatchesAt(rules, labels, 1);
    assert FullForm(labels, 2) == "co.uk";
  }

  /** `www.example.co.uk` under `co.uk` resolves to `example.co.uk`. */
  lemma MultiLevelSuffixExample()
    ensures Resolve({"uk", "co.uk", LOCAL}, "www.example.co.uk") == Some("example.co.uk")
  {
    MultiLevelSuffixLabels();
    MultiLevelSuffixMatch();
    ResolveAtFirstMatch({"uk", "co.uk", LOCAL}, "www.example.co.uk", 2);
  }

  lemma ExceptionRuleLabels()
    ensures Split("www.example.bl.uk", '.') == ["www", "example", "bl", "uk"]
  {
    var labels := ["www", "example", "bl", "uk"];
    assert Join(labels, '.') == "www.example.bl.uk";
    SplitJoin(labels, '.');
  }

  lemma ExceptionRuleMatch()
    ensures IsFirstMatch({"uk", "*.bl.uk", "!example.bl.uk"}, ["www", "example", "bl", "uk"], 1)
    ensures RegistrableAt({"uk", "*.bl.uk", "!example.bl.uk"}, ["www", "example", "bl", "uk"], 1) == "example.bl.uk"
  {
    var rules: set<string> := {"uk", "*.bl.uk", "!example.bl.uk"};
    var labels := ["www", "example", "bl", "uk"];
    assert !MatchesAt(rules, labels, 0);
    assert ExceptionForm(labels, 1) == "!example.bl.uk";
  }

  /** An exception rule under a wildcard: `example.bl.uk` is carved out of
    * `*.bl.uk` and is its own registrable domain. */
  lemma ExceptionRuleExample()
    ensures Resolve({"uk", "*.bl.uk", "!example.bl.uk"}, "www.example.bl.uk") == Some("example.bl.uk")
  {
    ExceptionRuleLabels();
    ExceptionRuleMatch();
    ResolveAtFirstMatch({"uk", "*.bl.uk", "!example.bl.uk"}, "www.example.bl.uk", 1);
  }

  lemma WildcardRuleLabels()
    ensures Split("a.b.foo.bl.uk", '.') == ["a", "b", "foo", "bl", "uk"]
  {
    var labels := ["a", "b", "foo", "bl", "uk"];
    assert Join(labels, '.') == "a.b.foo.bl.uk";
    SplitJoin(labels, '.');
  }

  lemma WildcardRuleMatch()
    ensures IsFirstMatch({"uk", "*.bl.uk"}, ["a", "b", "foo", "bl", "uk"], 2)
    ensures RegistrableAt({"uk", "*.bl.uk"}, ["a", "b", "foo", "bl", "uk"], 2) == "b.foo.bl.uk"
  {
    var rules: set<string> := {"uk", "*.bl.uk"};
    var labels := ["a", "b", "foo", "bl", "uk"];
    assert !MatchesAt(rules, labels, 0);
    assert !MatchesAt(rules, labels, 1);
    assert WildcardForm(labels, 2) == "*.bl.uk";
  }

  /** A wildcard rule `*.bl.uk` makes every `x.bl.uk` a public suffix. */
  lemma WildcardRuleExample()
    ensures Resolve({"uk", "*.bl.uk"}, "a.b.foo.bl.uk") == Some("b.foo.bl.uk")
  {
    WildcardRuleLabels();
    WildcardRuleMatch();
    ResolveAtFirstMatch({"uk", "*.bl.uk"}, "a.b.foo.bl.uk", 2);
  }

  lemma CaseVariantLabels()
    ensures Split("Evil.com", '.') == ["Evil", "com"]
  {
    var labels := ["Evil", "com"];
    assert Join(labels, '.') == "Evil.com";
    SplitJoin(labels, '.');
  }

  lemma CaseVariantMatch()
    ensures IsFirstMatch({"com", LOCAL}, ["Evil", "com"], 1)
    ensures RegistrableAt({"com", LOCAL}, ["Evil", "com"], 1) == "Evil.com"
  {
    var rules: set<string> := {"com", LOCAL};
    var labels := ["Evil", "com"];
    assert labels[0..] == labels && labels[1..] == ["com"];
    assert FullForm(labels, 0) == "Evil.com";
    assert WildcardForm(labels, 0) == "*.com";
    assert !MatchesAt(rules, labels, 0);
    assert FullForm(labels, 1) == "com";
  }

  /** Host names are not lower-cased: `Evil.com` resolves as written. */
  lemma CaseVariantResolvesAsWritten()
    ensures Resolve({"com", LOCAL}, "Evil.com") == Some("Evil.com")
  {
    CaseVariantLabels();
    CaseVariantMatch();
    ResolveAtFirstMatch({"com", LOCAL}, "Evil.com", 1);
  }

  /** So a case variant of a domain the bloom filter holds is not blocked. */
  lemma CaseVariantEscapesFilter()
    ensures !IsBlocked({"com", LOCAL}, d => d == "evil.com", "Evil.com")
  {
    CaseVariantLabels();
    CaseVariantResolvesAsWritten();
    assert LastLabel("Evil.com") == "com";
    assert "Evil.com" != "evil.com" by {
      assert "Evil.com"[0] != "evil.com"[0];
    }
  }

  /** `site.xxx` is blocked whatever the rules and the filter hold. */
  lemma BlockedTldExample(rules: set<string>, bloom: string -> bool)
    ensures IsBlocked(rules, bloom, "site.xxx")
  {
    var labels := ["site", "xxx"];
    assert Join(labels, '.') == "site.xxx";
    SplitJoin(labels, '.');
  }

  /** A bare token that no rule names is blocked whatever the filter holds:
    * the resolver fails and the decision fails closed. */
  lemma BareTokenFailsClosed(rules: set<string>, bloom: string -> bool, host: string)
    requires '.' !in host
    requires host !in rules && "!" + host !in rules && "*" !in rules
    ensures IsBlocked(rules, bloom, host)
  {
    SingleLabelHost(rules, host);
  }
}
