# Domain deny-list filter of `miracle`, modelled in Dafny

This project models the domain-classification core of `miracle/bloom.py`.
The core decides whether a host name is blocked. It does so in three ways:

- the host's last label is one of six fixed top-level domains;
- no public-suffix rule matches the host, so it fails closed;
- a bloom filter reports the host's registrable domain as a member.

The registrable domain is found by a variant of the Public Suffix List
matching algorithm. The rules are read from a line-oriented file in the
Public Suffix List format.

Files:

- `wrappers.dfy`: module `Wrappers`, the `Option` type that stands for Python's `None`.
- `py_strings.dfy`: module `PyStrings`, the Python string operations the core uses, with Python's semantics:
  - `str.split(sep)` and `sep.join(parts)`, with their round-trip lemmas;
  - `str.strip()`, over the exact set of characters `str.isspace()` accepts;
  - `str.startswith`.
- `bloom.dfy`: module `Bloom`. It holds:
  - `BLOCKED_TLDS`;
  - the data-file reader (`ReadDataFile`, a loop proved against the function `DataTokens`);
  - the block-list and public-suffix parsers;
  - the resolver specification `Resolve`, built from `MatchesAt`, `FirstMatch` and `RegistrableAt`;
  - the blocking decision `IsBlocked`;
  - the class `BloomDomainFilter`. Its two `const` fields are set in the constructor and never change. `Tld` is a loop method proved against `Resolve`. `Contains` is proved against `IsBlocked`.
- `bloom_properties.dfy`: module `BloomProperties`, the lemmas about the parser, the rule set, the resolver and the decision, plus worked examples.

The bloom filter is a membership oracle `string -> bool`. It is the set of
strings the filter answers "yes" for, false positives included. Data files
are given as their sequence of lines, as `readlines()` returns them.

Where the code departs from the Public Suffix List's formal algorithm
(publicsuffix.org/list), the model follows the code:

- Labels are not lower-cased. There are two cases:
  - A host with no matching rule in its written case resolves to `None`, so it fails closed and is blocked.
  - A mixed-case host whose public suffix matches in lower case resolves as written, and the bloom filter is asked about it as written. So a case variant of a blocked domain is not blocked. For example, `Evil.com` resolves to `Evil.com` under the rule `com` (`CaseVariantResolvesAsWritten`), and it is not blocked by a filter that holds only `evil.com` (`CaseVariantEscapesFilter`).
- Rules stay the raw strings of the file. `tld` looks up `x`, `!x` and `*.rest` for each candidate `x`.
- There is no implicit `*` rule. A one-label candidate's wildcard form is the bare string `*` (`StarRuleMatchesEverything`, `SingleLabelHost`).
- A host that is itself a rule resolves to itself (`PublicSuffixResolvesToItself`).
- In a data line, only a space ends the first token; a tab does not.
- The appended `local` rule never changes a decision (`LocalRuleNeverDecides`). This is because `local` is also a blocked top-level domain, and `__contains__` checks that first.

## Model

| member | source | states |
|---|---|---|
| `PyStrings.IsSpace` | miracle/bloom.py:32 | definition, no contract: the code points Python's `str.isspace()` accepts, which `strip()` removes |
| `PyStrings.StartsWith` | miracle/bloom.py:33 | definition, no contract: `str.startswith` |
| `PyStrings.Split` | miracle/bloom.py:67 | `host.split('.')` is never empty, no piece contains the separator, and joining the pieces gives back the host; the first piece is a prefix ending at the first separator |
| `PyStrings.Join` | miracle/bloom.py:70-75 | `'.'.join(parts)` starts with the first part |
| `PyStrings.SplitJoin` | miracle/bloom.py:67-70 | splitting a join of separator-free parts gives back the parts (the inverse of `Split`'s round trip) |
| `PyStrings.JoinAppend` | miracle/bloom.py:70 | joining two label lists puts exactly one dot at the seam |
| `PyStrings.SeparatorInJoin` | miracle/bloom.py:70 | a join of two or more labels contains a dot |
| `PyStrings.SplitSeparatorFree` | miracle/bloom.py:67 | a string without dots splits into itself alone |
| `PyStrings.LastPiece` | miracle/bloom.py:56 | `host.split('.')[-1]` contains no dot |
| `PyStrings.StripLeading` | miracle/bloom.py:32 | what is removed is whitespace and the result starts with non-whitespace |
| `PyStrings.StripTrailing` | miracle/bloom.py:32 | what is removed is whitespace and the result ends with non-whitespace |
| `PyStrings.Strip` | miracle/bloom.py:32 | `line.strip()` is a slice of the line with only whitespace outside it, and starts and ends with non-whitespace |
| `Bloom.IsDataLine` | miracle/bloom.py:33 | definition, no contract: the stripped line is non-empty and does not start with `//` |
| `Bloom.LineTokenIsToken` | miracle/bloom.py:33-34 | the text before the first space of a stripped data line is non-empty, has no space and does not start with `//` |
| `Bloom.DataTokens` | miracle/bloom.py:28-36 | every token read from a data file is non-empty, has no space and does not start with `//`; there are at most as many tokens as lines |
| `Bloom.ReadDataFile` | miracle/bloom.py:28-36 | the loop appends exactly the tokens `DataTokens` specifies, in line order |
| `Bloom.ParseDomainBlocklistSource` | miracle/bloom.py:39-40 | the block-list domains are the data-file tokens, each a well-formed token |
| `Bloom.SuffixRuleSet` | miracle/bloom.py:43-46 | the rule set always contains `local` and is exactly the parsed tokens plus `local` |
| `Bloom.ParsePublicSuffixList` | miracle/bloom.py:43-46 | the parser builds exactly that rule set |
| `Bloom.FullForm` | miracle/bloom.py:69-70 | definition, no contract: the candidate `'.'.join(labels[i:])` |
| `Bloom.ExceptionForm` | miracle/bloom.py:71 | definition, no contract: `'!'` followed by the candidate |
| `Bloom.WildcardForm` | miracle/bloom.py:75 | definition, no contract: `'.'.join(['*'] + labels[i+1:])`, which is just `*` for a one-label candidate |
| `Bloom.MatchesAt` | miracle/bloom.py:72-79 | definition, no contract: one of the candidate's three forms is a rule |
| `Bloom.RegistrableAt` | miracle/bloom.py:77-80 | definition, no contract: the candidate itself when its exception form is a rule, otherwise `labels[max(i, 1) - 1:]` joined |
| `Bloom.FirstMatch` | miracle/bloom.py:68-79 | finds the smallest index whose candidate suffix matches in any of its three forms; `None` exactly when no index from there on matches |
| `Bloom.Resolve` | miracle/bloom.py:66-81 | `None` exactly when no candidate suffix matches any form; otherwise the result is the registrable domain at the first (longest) matching candidate |
| `Bloom.ResolveAtFirstMatch` | miracle/bloom.py:68-80 | longest match wins: the first matching candidate alone decides the result |
| `Bloom.LastLabel` | miracle/bloom.py:56 | definition, no contract: `host.split('.')[-1]` |
| `Bloom.BLOCKED_TLDS` | miracle/bloom.py:9-16 | definition, no contract: the six blocked top-level domains `adult`, `local`, `porn`, `sex`, `sexy`, `xxx` |
| `Bloom.IsBlocked` | miracle/bloom.py:55-64 | blocked whenever the last label is a blocked top-level domain; blocked whenever resolution fails; otherwise equal to the bloom answer for the resolved domain |
| `Bloom.BloomDomainFilter.constructor` | miracle/bloom.py:51-53 | the filter keeps the given bloom oracle and the rule set parsed from the suffix-list lines |
| `Bloom.BloomDomainFilter.Tld` | miracle/bloom.py:66-81 | the loop returns exactly `Resolve` of the filter's rules |
| `Bloom.BloomDomainFilter.Contains` | miracle/bloom.py:55-64 | the method returns exactly `IsBlocked` of the filter's rules and bloom oracle |
| `BloomProperties.DataTokensAppend` | miracle/bloom.py:31-35 | lines are read independently: the tokens of two concatenated files are the tokens of each, in order |
| `BloomProperties.DataTokensOfLine` | miracle/bloom.py:32-35 | one line gives its first space-delimited token when it is a data line, and nothing when it is blank or a comment |
| `BloomProperties.SkippedLineContributesNothing` | miracle/bloom.py:33 | a blank or `//` comment line anywhere in a file contributes no token |
| `BloomProperties.KeptLineContributesOneToken` | miracle/bloom.py:33-35 | a data line contributes exactly one token, in its place |
| `BloomProperties.YieldsToken` | miracle/bloom.py:32-34 | definition, no contract: a line's stripped text is a data line and `t` is its text before the first space |
| `BloomProperties.InDataTokensOfLine` | miracle/bloom.py:32-35 | a one-line file yields exactly the token that line yields |
| `BloomProperties.InDataTokens` | miracle/bloom.py:31-35 | a token is read from a file exactly when some line of the file yields it |
| `BloomProperties.SuffixRuleSetDependsOnlyOnLines` | miracle/bloom.py:44-46 | two suffix lists holding the same lines, in any order and with any repetition, give the same rule set |
| `BloomProperties.ResolvedIsHostSuffix` | miracle/bloom.py:78-80 | a resolved domain is a suffix of the host that starts at a label boundary (the whole host or just after a dot) |
| `BloomProperties.ExceptionPriority` | miracle/bloom.py:77-78 | at the first matching candidate, an exception rule makes the candidate itself the result, whatever else matches there |
| `BloomProperties.MatchAddsOneLabel` | miracle/bloom.py:79-80 | a normal or wildcard first match at index i >= 1 gives the matched suffix with exactly one more label, `labels[i-1] + "." + suffix` |
| `BloomProperties.WholeHostMatch` | miracle/bloom.py:77-80 | any match of the whole host (i = 0) resolves to the whole host |
| `BloomProperties.PublicSuffixResolvesToItself` | miracle/bloom.py:72-80 | a host that is itself a rule resolves to itself |
| `BloomProperties.SingleLabelHost` | miracle/bloom.py:72-76 | a host without dots resolves exactly when the host, `!host` or the bare `*` is a rule |
| `BloomProperties.StarRuleMatchesEverything` | miracle/bloom.py:75 | with the bare rule `*`, every host resolves |
| `BloomProperties.FirstMatchAgrees` | miracle/bloom.py:68-79 | two rule sets that match the same candidates find the same first match |
| `BloomProperties.FormsAreNotLocal` | miracle/bloom.py:70-75 | no candidate form equals `local` unless the candidate is a last label `local` |
| `BloomProperties.MatchesIgnoreLocalRule` | miracle/bloom.py:45 | dropping the `local` rule changes no candidate's match when the last label is not `local` |
| `BloomProperties.ResolveIgnoresLocalRule` | miracle/bloom.py:45 | dropping the `local` rule does not change resolution when the last label is not `local` |
| `BloomProperties.LocalRuleNeverDecides` | miracle/bloom.py:45 | the appended `local` rule never changes a blocking decision, because `local` is a blocked top-level domain |
| `BloomProperties.MultiLevelSuffixExample` | miracle/bloom.py:66-80 | with `co.uk` a rule, `www.example.co.uk` resolves to `example.co.uk` |
| `BloomProperties.ExceptionRuleExample` | miracle/bloom.py:77-78 | `!example.bl.uk` overrides `*.bl.uk`: `www.example.bl.uk` resolves to `example.bl.uk` |
| `BloomProperties.WildcardRuleExample` | miracle/bloom.py:75-80 | with `*.bl.uk`, `a.b.foo.bl.uk` resolves to `b.foo.bl.uk` |
| `BloomProperties.CaseVariantResolvesAsWritten` | miracle/bloom.py:67-80 | under the rule `com`, the mixed-case host `Evil.com` resolves to `Evil.com`, unchanged in case |
| `BloomProperties.CaseVariantEscapesFilter` | miracle/bloom.py:55-64 | `Evil.com` is not blocked by a filter that holds only `evil.com` |
| `BloomProperties.BlockedTldExample` | miracle/bloom.py:9-16 | `site.xxx` is blocked whatever the rules and the bloom filter hold |
| `BloomProperties.BareTokenFailsClosed` | miracle/bloom.py:60-63 | a dotless host that no rule names is blocked whatever the bloom filter holds |

## Left out

- The bloom filter's internals are not modelled: hashing, bit layout, the memory-mapped file and the false-positive rate. They belong to the external `hydra.ReadingBloomFilter`, whose source is not part of this model. The filter is only its membership answer.
- Opening and decoding files (`open(..., encoding='utf-8')`, `readlines()`) is not modelled. Every reader takes the file's lines instead.
- The file-name defaults from `miracle.config` are not part of this model.
- `create_bloom_domain` (miracle/bloom.py:19-25) is left out. It only returns an injected filter or builds one from file names.
- `close` (miracle/bloom.py:83-84) is left out. It only releases the external filter's resources.
- Hosts or lines holding lone surrogate code points are not representable. A Python `str` can hold them, but a Dafny `char` is a Unicode scalar value. Lines decoded as strict UTF-8 never contain them.
- The worker, cache, data-deletion, test and migration modules are not part of this model. They are set-up and I/O around the filter.
