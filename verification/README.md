# subcrt: a Dafny model of its subdomain extraction

`subcrt` queries crt.sh, a certificate-transparency search service, for the
certificates of a domain. It collects the hostnames listed in their
`name_value` fields and prints or saves the hostnames that belong to the
domain. This project models the logic of `subcrt.py` that does not touch
the network or the terminal:

- **Hostname extraction** (`Extraction`). This is the body of a successful
  attempt in `fetch_subdomains`. Each record's `name_value` is split on
  newlines only. A token is kept when, before stripping, it ends with
  `"." + domain` or equals `domain`. Kept tokens are stripped, collected in a
  set, and returned sorted. Nothing is lowercased and commas do not separate
  names. The model has two parts:
  - a function `Extract`, with its membership, order and shape lemmas;
  - the nested loops that fill the set (`ExtractHostnames`), proved equal to
    `Extract`.
- **The retry loop** (`Fetch`). `for attempt in range(retries)` returns the
  extraction of the first attempt that succeeds. It sleeps once after every
  failed attempt, the last one included, and returns `[]` when no attempt
  succeeds.
  - The request, `raise_for_status` and JSON decoding form one abstract
    outcome per attempt. A function `respond(attempt)` gives that outcome,
    either `Success(records)` or `Failure`.
  - The method `FetchSubdomains` counts the requests it issues and the
    sleeps it takes. It is proved equal to the function `FetchReport`.
- **The driver in `main`** (`Driver`). `--domain` gives one domain. `--file`
  gives the stripped, non-blank lines of a file, in order. Each domain is
  fetched, the result lists are concatenated, and the program ends with
  `sorted(set(all_results))`.
  - `service(i)` answers the attempts for the `i`-th domain.
  - A file that cannot be read ends the run with `FileError`, which stands
    for `sys.exit(1)`.
- **Python's string operations used along the way** (`PyStr`, `Sorting`):
  - `str.strip()` with Python's whitespace set;
  - `str.split("\n")`, which gives `[""]` for `""`;
  - `str.endswith`;
  - Python's string order, which compares code point by code point and
    puts a proper prefix first;
  - `sorted` of a set of strings.

## Model

| member | source | states |
|---|---|---|
| PyStr.Strip | subcrt.py:47 | `s.strip()`: the result has no whitespace at either end. It is a contiguous slice of `s` with only whitespace cut away on both sides, and it is empty exactly when `s` is all whitespace. |
| PyStr.StripTrimmed | subcrt.py:91 | Stripping a string with no surrounding whitespace returns it unchanged. |
| PyStr.StripIdempotent | subcrt.py:91 | For every string, stripping twice is stripping once. |
| PyStr.StripKeepsCore | subcrt.py:46-47 | Stripping `p + q`, where `q` starts and ends with a non-space, still ends with `q`. |
| PyStr.StripLeadingSpace | subcrt.py:46-47 | Stripping leading whitespace off a trimmed `q` gives back exactly `q`. |
| PyStr.Split | subcrt.py:45 | `split(sep)`: at least one piece, no piece contains `sep`, and joining the pieces with `sep` gives back `s`. |
| PyStr.SplitCons | subcrt.py:45 | A prefix without `sep`, followed by `sep`, becomes the first piece, and splitting continues after it. |
| PyStr.SplitNone | subcrt.py:45 | A string without `sep` splits into itself alone. |
| PyStr.SplitJoin | subcrt.py:45 | `split` inverts `join` when no piece contains the separator. |
| PyStr.LessIrreflexive | subcrt.py:48 | No string is smaller than itself in Python's string order. |
| PyStr.LessTransitive | subcrt.py:48 | Python's string order is transitive. |
| PyStr.LessTotal | subcrt.py:48 | Two distinct strings are ordered one way, and never both ways. |
| PyStr.PrefixLess | subcrt.py:48 | A proper prefix sorts before the longer string. |
| Sorting.Insert | subcrt.py:47 | Adding a name to a strictly increasing list keeps it strictly increasing, and its elements become the old ones plus the name. |
| Sorting.SortedUnique | subcrt.py:99 | `sorted(set(xs))`: strictly increasing, with exactly the elements of `xs`. |
| Sorting.StrictlyIncreasingUnique | subcrt.py:48 | Two strictly increasing lists with the same elements are equal, so `sorted` of a set does not depend on how the set was built. |
| Sorting.Sorted | subcrt.py:48 | `sorted(s)` for a set: strictly increasing, holding exactly the elements of `s`. |
| Sorting.SortedOfSet | subcrt.py:99 | Any strictly increasing list with the elements of `xs` is `SortedUnique(xs)`. |
| Extraction.Extract | subcrt.py:42-48 | The list a successful attempt returns is sorted with no duplicates. |
| Extraction.KeepTokensMembers | subcrt.py:45-47 | The names one record adds are exactly the stripped forms of its qualifying newline-separated tokens. |
| Extraction.KeptAllConcat | subcrt.py:43-47 | What the records add is each record's list of names, one record after the other. |
| Extraction.KeptAllMembers | subcrt.py:43-47 | The names all records add are exactly those one of the records adds. |
| Extraction.ExtractMembers | subcrt.py:42-48 | Soundness and completeness: a hostname is returned exactly when it is the stripped form of some record's token that, unstripped, equals `domain` or ends with `"." + domain`. |
| Extraction.StripQualifying | subcrt.py:46-47 | For a domain with no surrounding whitespace, stripping a qualifying token leaves the domain or a name ending with `"." + domain`. |
| Extraction.ExtractMatchesDomain | subcrt.py:42-48 | Every returned hostname is the domain or ends with `"." + domain`, when the domain has no surrounding whitespace. |
| Extraction.KeptAllAppend | subcrt.py:43-47 | The records are processed one after the other: the names added for `a + b` are those for `a`, then those for `b`. |
| Extraction.MissingNameValueIgnored | subcrt.py:44-47 | A record without `name_value` reads as `""` and adds nothing when the domain is non-empty. |
| Extraction.ExtractIgnoresOrder | subcrt.py:42-48 | The result depends only on which records occur, not on their order or repetition. |
| Extraction.FirstOfTwoLines | subcrt.py:45-47 | A two-line `name_value` whose second line does not qualify yields only the stripped first line. |
| Extraction.SingleLineVerbatim | subcrt.py:45-47 | A one-line qualifying `name_value` yields its stripped form, with letter case untouched. |
| Extraction.CommaDoesNotSeparate | subcrt.py:45-47 | Two names joined by a comma on one line are kept as one hostname that contains the comma. |
| Extraction.UntrimmedDomainEscapesSuffix | subcrt.py:46-47 | The domain is matched as given. A domain with leading whitespace matches a token equal to it, and the stripped hostname is then neither the domain nor ends with `"." + domain`. |
| Extraction.TestedBeforeStripping | subcrt.py:46-47 | A name with a trailing space fails the suffix test and is dropped. The same name with a leading space passes and is kept stripped. |
| Extraction.KeepTokensStep | subcrt.py:45-47 | One more token adds its stripped form exactly when it qualifies. |
| Extraction.KeptAllStep | subcrt.py:43-47 | One more record adds the names of its own tokens. |
| Extraction.AddQualifying | subcrt.py:45-47 | The inner loop grows the set by exactly the stripped qualifying tokens. |
| Extraction.ExtractHostnames | subcrt.py:42-48 | The nested loops and `sorted(subdomains)` return exactly `Extract(data, domain)`. |
| Fetch.FirstSuccess | subcrt.py:37-48 | The first successful attempt below `n`: it succeeded and all earlier ones failed. `None` means every attempt failed. |
| Fetch.FailuresAllFail | subcrt.py:49-51 | When the first `n` attempts all fail, there are `n` failures. |
| Fetch.FetchReport | subcrt.py:37-54 | At most `max(retries, 0)` requests. Sleeps equal the failed requests. The returned list is sorted with no duplicates. `retries <= 0` means no request, no sleep and `[]`. |
| Fetch.FirstSuccessWins | subcrt.py:37-51 | If attempt `k` is the first success, the result is its extraction, after `k + 1` requests and `k` sleeps. |
| Fetch.AllAttemptsFail | subcrt.py:37-54 | If every attempt fails, all `retries` requests are made, each is followed by a sleep, and the result is `[]`. |
| Fetch.RetryThreshold | subcrt.py:37-54 | After `n` failures and then a success, `n + 1` retries reach the success and `n` retries return `[]`. |
| Fetch.EmptyArrayNoRetry | subcrt.py:41-48 | A response that decodes to an empty array is a success: one request, no sleep, result `[]`. |
| Fetch.FetchMatchesDomain | subcrt.py:37-54 | When the domain has no surrounding whitespace, every hostname a call returns is the domain or ends with `"." + domain`. |
| Fetch.FetchSubdomains | subcrt.py:37-54 | The loop returns the hostnames and counts the requests and sleeps exactly as `FetchReport` does. |
| Driver.LineDomain | subcrt.py:91 | One line contributes at most one domain, non-empty and trimmed; `DomainListLine` gives its value. |
| Driver.DomainList | subcrt.py:91 | The comprehension yields no more domains than lines, each non-empty and without surrounding whitespace. |
| Driver.DomainListAppend | subcrt.py:91 | The comprehension keeps line order: the domains of `a + b` are those of `a`, then those of `b`. |
| Driver.DomainListLine | subcrt.py:91 | A single line gives its stripped form, or nothing when it is blank. |
| Driver.DomainListMembers | subcrt.py:91 | A domain is listed exactly when it is the non-empty stripped form of some line. |
| Driver.BlankLinesNoDomains | subcrt.py:91 | A file of blank lines gives no domains. |
| Driver.Aggregate | subcrt.py:99 | `unique_subs` is sorted with no duplicates. |
| Lists.ConcatMembers | subcrt.py:92-94 | A name is in the concatenation of lists exactly when it is in one of them. |
| Driver.AllResultsMembers | subcrt.py:83-94 | `all_results` holds exactly the hostnames returned for some domain of the work list. |
| Driver.AggregateMembers | subcrt.py:83-99 | `unique_subs` holds exactly the union of the per-domain results. |
| Driver.FileResultsMatchDomains | subcrt.py:88-99 | In `--file` mode, every reported hostname is a listed domain or ends with `"." + ` a listed domain. |
| Driver.AllResultsStep | subcrt.py:92-94 | Each `extend` appends the next domain's result after those of the earlier domains. |
| Driver.Run | subcrt.py:83-99 | `main` after argument parsing either exits on an unreadable file or ends with `sorted(set(...))` of the concatenated per-domain results. An empty `--domain` or `--file` value fetches nothing. |

## Left out

- The HTTP request, its 10-second timeout, `raise_for_status` and `response.json()` (lines 39-41) are library calls. Each attempt is reduced to an outcome, `Success(records)` or `Failure`, supplied as a parameter.
- The model assumes every decoded record is an object whose `name_value`, when present, is a string. Another JSON shape raises an exception the `except` clause does not catch; that path is not modelled.
- `time.sleep(delay)` (line 51) is counted, not timed. A negative `--delay` would make `sleep` raise inside the `except` clause; that path is not modelled.
- Reading the file (line 90) is a parameter: the lines iterating the file yields, or `None` when it cannot be opened or decoded. How Python splits a file into lines (universal newlines, a final line without newline) is not modelled.
- Printing, including the `--print` listing, `save_to_file` (lines 57-65) and the exit status are left out. An unreadable file is reduced to the result `FileError`.
- The `argparse` setup (lines 70-81), the `Colors` constants and `BANNER` (lines 14-30) are left out.
- The code refers to `Colors.END`, `Colors.WARNING` and `Colors.FAIL`, which class `Colors` does not define. As written, the print on line 35 raises `AttributeError` before any request is made. The model describes the loop the code evidently intends, with the prints abstracted away.
- `RequestException` is never imported, so the `except` clause on line 49 would itself raise `NameError` when an attempt raises. The model treats every request or decoding error as a caught failure, as the code evidently intends.
- In `--file` mode, the `except Exception` on line 95 also encloses the fetch loop. An exception escaping `fetch_subdomains` would be reported as a file error. In the model nothing escapes `fetch_subdomains`, so only an unreadable file leads to `FileError`.
- The hostnames are not normalised:
  - no lowercasing;
  - no splitting on commas;
  - wildcard names such as `*.example.com` are kept as they are.

  The model follows the code, so the output is neither lowercased nor comma-split. `SingleLineVerbatim`, `CommaDoesNotSeparate` and `TestedBeforeStripping` state what the code returns.
- Fetch.FetchMatchesDomain: holds only for a domain with no surrounding whitespace. `main` passes `--domain` unstripped (line 86), and an untrimmed domain breaks the suffix guarantee, as `UntrimmedDomainEscapesSuffix` shows. Domains read from `--file` are always stripped (line 91), so `FileResultsMatchDomains` has no such condition.
- Strings are modelled as sequences of Unicode scalar values. A `name_value` holding a lone surrogate, which Python's JSON decoder accepts from an escape such as `\ud800`, cannot be represented.
