/**
 * The domain deny-list filter of miracle/bloom.py.
 *
 * A host is blocked when its last label is one of a fixed list of
 * top-level domains, when no public-suffix rule matches it (fail closed),
 * or when the bloom filter reports its registrable domain as a member.
 * The bloom filter is an abstract membership oracle `string -> bool`: the
 * strings it answers "yes" for, false positives included. Data files are
 * given as the sequence of their lines, as `readlines()` returns them.
 */
module Bloom {
  import opened Wrappers
  import opened PyStrings

  /** Top-level domains that are blocked whatever the filter holds. */
  const BLOCKED_TLDS: set<string> := {"adult", "local", "porn", "sex", "sexy", "xxx"}

  /** The suffix rule appended to every parsed public suffix list. */
  const LOCAL: string := "local"

  // ---------------------------------------------------------------------
  // Line-oriented data files

  /** A stripped line that carries data: not blank and not a `//` comment. */
  predicate IsDataLine(line: string) {
    line != [] && !StartsWith(line, "//")
  }

  /** The form of every token a data file yields. */
  predicate IsToken(t: string) {
    t != [] && ' ' !in t && !StartsWith(t, "//")
  }

  /** The text of a stripped data line before its first space. */
  lemma LineTokenIsToken(line: string)
    requires IsDataLine(line) && !IsSpace(line[0])
    ensures IsToken(Split(line, ' ')[0])
  {
  }

  /** What reading a data file yields: for each line, in order, the text
    * before the first space of the stripped line, unless the stripped line
    * is blank or a `//` comment. */
  function DataTokens(fileLines: seq<string>): (tokens: seq<string>)
    ensures |tokens| <= |fileLines|
    ensures forall t :: t in tokens ==> IsToken(t)
  {
    if fileLines == [] then []
    else
      var rest := DataTokens(fileLines[..|fileLines| - 1]);
      var line := Strip(fileLines[|fileLines| - 1]);
      if IsDataLine(line) then
        LineTokenIsToken(line);
        rest + [Split(line, ' ')[0]]
      else rest
  }

  /** `_read_data_file`, with the file given as its lines. */
  method ReadDataFile(fileLines: seq<string>) returns (lines: seq<string>)
    ensures lines == DataTokens(fileLines)
  {
    lines := [];
    for n := 0 to |fileLines|
      invariant lines == DataTokens(fileLines[..n])
    {
      assert fileLines[..n + 1][..n] == fileLines[..n];
      var line := Strip(fileLines[n]);
      if line != [] && !StartsWith(line, "//") {
        line := Split(line, ' ')[0];
        lines := lines + [line];
      }
    }
    assert fileLines[..|fileLines|] == fileLines;
  }

  /** `parse_domain_blocklist_source`: the domains of a block-list file. */
  method ParseDomainBlocklistSource(fileLines: seq<string>) returns (domains: seq<string>)
    ensures domains == DataTokens(fileLines)
    ensures forall d :: d in domains ==> IsToken(d)
  {
    domains := ReadDataFile(fileLines);
  }

  /** The public suffix rule set built from a suffix-list file: its tokens
    * and `local`, as a set. */
  function SuffixRuleSet(fileLines: seq<string>): (rules: set<string>)
    ensures LOCAL in rules
    ensures forall t :: t in rules <==> t == LOCAL || t in DataTokens(fileLines)
  {
    (set t | t in DataTokens(fileLines)) + {LOCAL}
  }

  /** `parse_public_suffix_list`, with the file given as its lines. */
  method ParsePublicSuffixList(fileLines: seq<string>) returns (rules: set<string>)
    ensures rules == SuffixRuleSet(fileLines)
  {
    var lines := ReadDataFile(fileLines);
    lines := lines + [LOCAL];
    rules := set t | t in lines;
  }

  // ---------------------------------------------------------------------
  // Registrable-domain resolution

  /** The three rule strings tried for the candidate suffix `labels[i..]`. */
  function FullForm(labels: seq<string>, i: nat): string
    requires i < |labels|
  {
    Join(labels[i..], '.')
  }

  function ExceptionForm(labels: seq<string>, i: nat): string
    requires i < |labels|
  {
    "!" + Join(labels[i..], '.')
  }

  /** `*` in place of the candidate's first label; just `*` for a
    * one-label candidate. */
  function WildcardForm(labels: seq<string>, i: nat): string
    requires i < |labels|
  {
    Join(["*"] + labels[i + 1..], '.')
  }

  /** Some rule matches the candidate suffix `labels[i..]`. */
  predicate MatchesAt(rules: set<string>, labels: seq<string>, i: nat)
    requires i < |labels|
  {
    ExceptionForm(labels, i) in rules || FullForm(labels, i) in rules || WildcardForm(labels, i) in rules
  }

  /** `i` is the longest candidate suffix (smallest index) that matches. */
  predicate IsFirstMatch(rules: set<string>, labels: seq<string>, i: nat) {
    i < |labels| && MatchesAt(rules, labels, i) &&
    forall k :: 0 <= k < i ==> !MatchesAt(rules, labels, k)
  }

  /** The first index at or after `from` whose candidate suffix matches. */
  function FirstMatch(rules: set<string>, labels: seq<string>, from: nat): (r: Option<nat>)
    requires from <= |labels|
    ensures r.Some? ==> from <= r.value < |labels| && MatchesAt(rules, labels, r.value) &&
                        forall k :: from <= k < r.value ==> !MatchesAt(rules, labels, k)
    ensures r.None? <==> forall k :: from <= k < |labels| ==> !MatchesAt(rules, labels, k)
    decreases |labels| - from
  {
    if from == |labels| then None
    else if MatchesAt(rules, labels, from) then Some(from)
    else FirstMatch(rules, labels, from + 1)
  }

  /** The registrable domain when the first match is at `i`: the candidate
    * itself for an exception rule, otherwise the candidate with one more
    * label in front (`labels[max(i, 1) - 1:]`). */
  function RegistrableAt(rules: set<string>, labels: seq<string>, i: nat): string
    requires i < |labels|
  {
    if ExceptionForm(labels, i) in rules then Join(labels[i..], '.')
    else Join(labels[if i >= 1 then i - 1 else 0..], '.')
  }

  /** The registrable domain of `host` under `rules`, or `None` when no
    * candidate suffix of the host matches any rule. */
  function Resolve(rules: set<string>, host: string): (r: Option<string>)
    ensures var labels := Split(host, '.');
            r.None? <==> forall i :: 0 <= i < |labels| ==> !MatchesAt(rules, labels, i)
    ensures var labels := Split(host, '.');
            r.Some? ==> exists i :: IsFirstMatch(rules, labels, i) && r.value == RegistrableAt(rules, labels, i)
  {
    var labels := Split(host, '.');
    match FirstMatch(rules, labels, 0)
    case None => None
    case Some(i) =>
      assert IsFirstMatch(rules, labels, i);
      Some(RegistrableAt(rules, labels, i))
  }

  /** Longest match wins: the first matching candidate decides the result. */
  lemma ResolveAtFirstMatch(rules: set<string>, host: string, i: nat)
    requires IsFirstMatch(rules, Split(host, '.'), i)
    ensures Resolve(rules, host) == Some(RegistrableAt(rules, Split(host, '.'), i))
  {
  }

  /** `host.split('.')[-1]` */
  function LastLabel(host: string): string {
    LastPiece(host, '.')
  }

  /** The blocking decision for `host` under `rules`, with `bloom` the
    * filter's membership answer. */
  function IsBlocked(rules: set<string>, bloom: string -> bool, host: string): (blocked: bool)
    ensures LastLabel(host) in BLOCKED_TLDS ==> blocked
    ensures Resolve(rules, host).None? ==> blocked
    ensures LastLabel(host) !in BLOCKED_TLDS && Resolve(rules, host).Some? ==>
              blocked == bloom(Resolve(rules, host).value)
  {
    LastLabel(host) in BLOCKED_TLDS ||
    match Resolve(rules, host)
    case None => true
    case Some(domain) => bloom(domain)
  }

  // ---------------------------------------------------------------------
  // The filter object

  class BloomDomainFilter {
    /** The bloom filter's membership answer. */
    const bloom: string -> bool
    const publicSuffixes: set<string>

    constructor (bloom: string -> bool, publicSuffixLines: seq<string>)
      ensures this.bloom == bloom
      ensures publicSuffixes == SuffixRuleSet(publicSuffixLines)
    {
      var rules := ParsePublicSuffixList(publicSuffixLines);
      this.bloom := bloom;
      publicSuffixes := rules;
    }

    /** `__contains__`: whether `host` is blocked. */
    method Contains(host: string) returns (blocked: bool)
      ensures blocked == IsBlocked(publicSuffixes, bloom, host)
    {
      var labels := Split(host, '.');
      if labels[|labels| - 1] in BLOCKED_TLDS {
        return true;
      }
      var tld := Tld(host);
      if tld.None? {
        return true;
      }
      return bloom(tld.value);
    }

    /** `tld`: the registrable domain of `host`, trying candidate suffixes
      * from the whole host down to its last label. */
    method Tld(host: string) returns (r: Option<string>)
      ensures r == Resolve(publicSuffixes, host)
    {
      var labels := Split(host, '.');
      for i := 0 to |labels|
        invariant forall k :: 0 <= k < i ==> !MatchesAt(publicSuffixes, labels, k)
      {
        var subLabels := labels[i..];
        var fullMatch := Join(subLabels, '.');
        var exceptionMatch := "!" + fullMatch;
        assert subLabels[1..] == labels[i + 1..];
        var wildcardMatch := Join(["*"] + subLabels[1..], '.');
        assert fullMatch == FullForm(labels, i) && exceptionMatch == ExceptionForm(labels, i);
        assert wildcardMatch == WildcardForm(labels, i);
        if exceptionMatch in publicSuffixes {
          ResolveAtFirstMatch(publicSuffixes, host, i);
          return Some(Join(subLabels, '.'));
        } else if fullMatch in publicSuffixes || exceptionMatch in publicSuffixes || wildcardMatch in publicSuffixes {
          var start := (if i > 1 then i else 1) - 1;
          ResolveAtFirstMatch(publicSuffixes, host, i);
          return Some(Join(labels[start..], '.'));
        }
      }
      return None;
    }
  }
}
