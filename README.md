# Calendar timezone fixer: the reference rewriter, in Dafny

The service takes an iCalendar document written by Exchange-style
exporters. These exporters name timezones with Windows names such as
`Romance Standard Time`. The service rewrites those timezone references to
IANA identifiers such as `Europe/Brussels`, so that strict calendar clients
accept the document.

This project models the core of that service:

- the alias table of ten Windows names and their IANA identifiers (`app.py:7-18`);
- the rewrite loop of `fix_ics` (`app.py:34-45`).

Everything else in `app.py` is HTTP plumbing.

The model follows the code:

- The table is walked in its insertion order.
- An alias is taken up only when its Windows name occurs anywhere in the
  current text (`ms_tz in ics`).
- For such an alias, every `TZID=` + name is replaced, and then every
  `TZID:` + name. Both are plain left-to-right substring replacements
  (`str.replace`).
- The count is raised once per alias taken up.

Modules:

- `Text` (`text.dfy`) holds the string primitives: `OccursAt`, `Contains` (Python's
  `in`) and `ReplaceAll` (Python's `str.replace` for a non-empty pattern).
  It also holds lemmas about them:
  - where the leftmost occurrence is replaced;
  - replacement across a cut;
  - when a replacement cannot create a new occurrence of a pattern.
- `Aliases` (`aliases.dfy`) holds the table as an ordered sequence of
  pairs, and an exact-match lookup.
- `Rewriter` (`rewriter.dfy`) holds:
  - the method `Rewrite`, whose loop is the loop of `fix_ics`;
  - the specification functions it is proved against: `Retarget` is one
    guarded pass, `RewriteAll` the whole walk, and `Found` the count;
  - the lemmas that say what the walk does.
- `Scenarios` (`scenarios.dfy`) holds concrete calendar lines and what the
  rewriter makes of them.

The proofs that nothing is rewritten twice, and that no reference survives,
rest on facts about the characters the table uses:

- Every Windows name holds a space and ends in a lower-case letter.
- Every IANA identifier holds a `/`, has no space, and ends in a lower-case
  letter.

`Rewriter.TableIsSafe` checks these facts entry by entry. From them,
`Rewriter.MarkerCannotForm` derives that inserting `TZID=`/`TZID:` + identifier
can never complete a `TZID=`/`TZID:` + name reference with the text around it.

## Model

| member | source | states |
|---|---|---|
| `Text.ReplaceAllUnchanged` | app.py:39 | `replace` with a pattern that does not occur returns its input unchanged |
| `Text.ReplaceAllAtFirst` | app.py:39 | `replace` copies everything before the leftmost occurrence, substitutes it, and carries on after it (left-to-right, non-overlapping scan) |
| `Text.ReplaceAllOnly` | app.py:43 | a text whose only occurrence of the pattern follows a prefix becomes prefix + replacement + rest |
| `Text.ReplaceAllConcat` | app.py:39 | `replace` works piecewise across a boundary that no occurrence straddles |
| `Text.ReplaceAllAfterCut` | app.py:43 | a character the pattern lacks cuts the text: replacement distributes over the two sides, and the left side keeps its last character |
| `Text.NoNewOccurrence` | app.py:39-43 | replacing with a string that cannot combine with its surroundings into an occurrence of `q` never creates `q`; if `q` is the pattern itself, none is left |
| `Text.FirstOccurrence` | app.py:36 | when `pat in s`, the index of the leftmost occurrence; no occurrence starts before it |
| `Text.ContainsChars` | app.py:36 | a name holding a character the text lacks is not `in` the text |
| `Aliases.Lookup` | app.py:7-18 | exact-match lookup in the table: `None` exactly when no entry has that name, otherwise an entry's identifier |
| `Aliases.LookupListed` | app.py:7-18 | with distinct keys, a listed name gives exactly its own identifier |
| `Aliases.TableShape` | app.py:7-18 | the table has ten entries and no Windows name twice, as the keys of a dictionary |
| `Aliases.ValuesFreeOfKeys` | app.py:7-18 | no IANA identifier of the table contains any Windows name of it |
| `Aliases.ExactLookup` | app.py:8 | `Romance Standard Time` gives `Europe/Brussels`; a part of a name, or a name in another case, gives nothing |
| `Rewriter.TableIsSafe` | app.py:7-18 | every Windows name is letters, spaces and dots, holds a space and ends in lower case; every identifier is letters, `/` and `_`, holds a `/` and ends in lower case; keys are distinct |
| `Rewriter.MarkerCannotForm` | app.py:39-43 | an inserted `TZID=`/`TZID:` + identifier can neither hold nor complete a `TZID=`/`TZID:` + Windows name |
| `Rewriter.AbsentNameNoReference` | app.py:36 | when the name is absent from the text, no `TZID=`/`TZID:` reference to it is present either |
| `Rewriter.RetargetUnchanged` | app.py:36 | with no reference to the name present, running the two replacements changes nothing, so skipping the pass equals running it |
| `Rewriter.RetargetClears` | app.py:39-43 | after a pass, no `TZID=` or `TZID:` reference to that pass's name is left |
| `Rewriter.RetargetPreserves` | app.py:39-43 | a pass for another alias does not bring back an absent reference |
| `Rewriter.RewriteAllPreserves` | app.py:35-45 | walking aliases with other names does not bring back an absent reference |
| `Rewriter.RewriteAllClears` | app.py:35-45 | after the walk, no `TZID=`/`TZID:` + Windows name of the table is left |
| `Rewriter.NoReferencesUnchanged` | app.py:36-45 | with no reference in the text, the output equals the input, and the count equals the number of Windows names found anywhere, such as in a description |
| `Rewriter.NoNamesUnchanged` | app.py:34-45 | with no Windows name in the text, the output equals the input and the count is 0 |
| `Rewriter.FoundBounded` | app.py:45 | the count never exceeds the number of aliases |
| `Rewriter.Idempotent` | app.py:35-45 | rewriting the output again changes nothing; the second count is the number of names still present in prose |
| `Rewriter.SafeTableTail` | app.py:7-18 | the entries after the first still meet the table conditions |
| `Rewriter.Anchored` | app.py:39-43 | where the only spaces of the text are those of one reference, a reference to the same name can only be that one |
| `Rewriter.ReplaceMatching` | app.py:39 | replacing `m` + name rewrites the single reference `m` + name in space-free surroundings |
| `Rewriter.ReplaceOther` | app.py:43 | the other marker form leaves that reference alone |
| `Rewriter.RetargetSingle` | app.py:39-43 | one pass over a text holding a single reference in space-free surroundings rewrites exactly that reference |
| `Rewriter.SingleReference` | app.py:35-45 | one reference to the `i`-th name, with no earlier name in the text, comes out as `TZID=`/`TZID:` + the `i`-th identifier, the rest untouched, and the count is 1 |
| `Rewriter.RetargetAfterNewline` | app.py:39-43 | one pass works on the two sides of a newline independently |
| `Rewriter.RewriteAllAfterNewline` | app.py:35-45 | the walk works on the two sides of a newline independently |
| `Rewriter.RewriteAllEmpty` | app.py:35-45 | the empty text stays empty |
| `Rewriter.LineKeptFirst` | app.py:35-45 | a leading line with no reference is passed through and the rest is rewritten |
| `Rewriter.LineKeptVerbatim` | app.py:35-45 | a whole line with no reference, anywhere in the text, is passed through byte for byte, and the rest is rewritten as if it were not there |
| `Rewriter.Rewrite` | app.py:34-45 | the loop computes `RewriteAll` and `Found` of its input; the count is at most 10; no reference is left; a text without any Windows name comes back unchanged with count 0 |
| `Rewriter.RewriteFacts` | app.py:34-45 | the same facts for the walk over the program's table |
| `Scenarios.StartTimeParameter` | app.py:38-39 | `DTSTART;TZID=Romance Standard Time` + a space-free rest becomes `DTSTART;TZID=Europe/Brussels` + that rest, count 1 |
| `Scenarios.TimezoneProperty` | app.py:42-43 | `TZID:Romance Standard Time` becomes `TZID:Europe/Brussels` in any space-free surroundings, count 1 |
| `Scenarios.NoMarkerLetter` | app.py:39-43 | a text without `Z` holds no reference |
| `Scenarios.NameInProse` | app.py:36-45 | `Romance Standard Time` in a text without `Z` (so outside any `TZID` context) is counted but left unchanged |
| `Scenarios.DescriptionLine` | app.py:36-45 | `DESCRIPTION:Meeting in Romance Standard Time` + a rest without `Z` passes through unchanged and counts at least once |
| `Scenarios.NoDistinctiveLetter` | app.py:36 | a text lacking certain letters holds no Windows name of the table |
| `Scenarios.StampAppended` | app.py:36 | appending a time stamp adds none of those letters |
| `Scenarios.UnlistedZone` | app.py:35-45 | `DTSTART;TZID=Tokyo Standard Time` + a rest of digits, `T` and `:` passes through unchanged with count 0 |
| `Scenarios.SpaceFreeUnchanged` | app.py:36-45 | a text without a space is passed through with count 0 |
| `Scenarios.MeetingNote` | app.py:39-43 | the description line of the event holds no reference |
| `Scenarios.EventLines` | app.py:35-45 | in an event, the start line `DTSTART;TZID=Romance Standard Time` + a space-free time stamp is rewritten while the following description line, which names the zone in prose, and the lines after it, when they hold no space or no `Z` (such as `SUMMARY:Team sync`), are kept byte for byte |

## Left out

- The Flask application, the route and the `ics_url` parameter check (`app.py:1`, `app.py:4`, `app.py:20-24`): HTTP plumbing with no logic to prove.
- The download with `requests`, its timeout and the 502 error path (`app.py:26-32`). The model starts from the downloaded text as its input.
- The log line, the `Response` wrapper and `app.run` (`app.py:47-52`). These are output and process start-up. The count is returned by `Rewriter.Rewrite` instead of printed.
- Python strings are sequences of code points, and so are Dafny strings here. Encoding of the HTTP body is not modelled.
- Delimiter-aware matching is not modelled, because the code does not do it. `app.py:39` and `app.py:43` replace plain substrings: a Windows name is rewritten wherever `TZID=`/`TZID:` + name occurs, whatever character follows it, and the model does the same. For instance, `TZID=Pacific Standard Time (Mexico)` would have its first three words rewritten. No lemma about such inputs is given.
- Removing and injecting `VTIMEZONE` blocks, stripping vendor properties, and whitespace normalization are not in `app.py`. They are not part of this model.
- `Rewriter.SingleReference`: it covers texts whose only spaces are those of the one reference, with no earlier Windows name present. Texts with several references are covered only by the general facts, through `Rewriter.RewriteAllClears` and `Rewriter.LineKeptVerbatim`, not by an exact output. The no-earlier-name condition is met concretely only for the first entry (`Romance Standard Time`, through the `Scenarios` lemmas); for the other nine entries it stays a precondition.
- `Scenarios.DescriptionLine`: it states that the count is at least 1, not exactly 1.
