# A verified model of the text core of `my_mcp_server`

`my_mcp_server` is an MCP server: its tools and resources each return a text
to the client. Most of the module reads files, lists directories or queries
SQLite. Between those inputs and the returned text sits a small
text-processing core. This project models that core in Dafny and proves
properties of it:

- **the skill catalog parser** `load_skills_from_agents_md` (module `Catalog`).
  It applies `re.findall` with the pattern
  `<skill>\s*<name>(.*?)</name>\s*<description>(.*?)</description>` under
  `re.DOTALL` to `AGENTS.md`. The name is stripped of whitespace. The
  description is stripped of whitespace and then of every leading and
  trailing `"`.
  - The scan is modelled the way the regex engine runs: try each position
    from left to right; let the two lazy groups grow from empty; resume
    after the end of each match.
  - `IsFindAll` says, independently of the scan, which matches re.findall
    must report. The lemmas prove that the scan returns exactly those.
  - Module `CatalogDocuments` proves a round trip: a document written as
    well-formed skill blocks parses back to exactly their records.
- **the skills listing** of `list_all_skills` (module `SkillListing`);
- **the font list** of `get_canvas_design_guide`: the `.ttf` filter, the sort,
  the bullets and the count (module `CanvasGuide`);
- **the skill guide** and its not-found text in `get_skill_guide` (module
  `SkillGuide`);
- **the user tables** of `query_users` and `query_users_by_city` (module
  `UsersTable`);
- **the error policy of the file resource** `read_file_resource` (module
  `Resources`).

Module `Text` holds the string helpers the source takes from Python:
- the whitespace that `str.strip()` and the pattern's `\s` use: the 29 code
  points for which `str.isspace` holds (the source never calls `isspace`
  itself);
- `strip` and `strip('"')`;
- `str.endswith` and `join`;
- `str()` of a count;
- `sorted()` on strings, which compares code points.

The source never calls `split`. `Text.Split` is only a reference
definition, used to read the rendered lines back.

The loops of the source are methods with loop invariants. Each method is
proved equal to a specification function:
- `Catalog.LoadSkills` appends one record per match;
- `SkillListing.RenderListing` and `UsersTable.RenderTable` grow a text
  with `+=`.

The comprehensions and f-strings are functions.

File contents, directory listings and query rows are inputs:
- a read is a `ReadOutcome`: `Ok(content)`, `NotFound` or `OtherError(message)`;
- a listing that may fail is an `Option`;
- a tool reply is a `Reply`: a text, or `Raised` when an exception escapes
  the tool.

### Behaviour worth knowing

- **Quotes.** `strip('"')` removes every leading and trailing `"`, however
  many there are. `Text.StripQuotes` and `Catalog.Record` model this, and
  `Text.StripQuotesOfQuoted` shows that a description written as `"D"`
  comes back as `D`.
- **Malformed blocks.** The comment at `server.py:370` says the pattern
  matches `<skill>...</skill>` blocks, but a block whose `</name>` is not
  followed by `<description>` is not skipped. The lazy group 1 runs on to a
  later `</name>` that is followed by `<description>`, so such a block merges
  into the next one. `CatalogDocuments.MalformedBlockMerges` proves this for
  `<skill><name>A</name><skill><name>B</name><description>D</description>`:
  the text gives one record, named `A</name><skill><name>B`.
- **Order of offered skills.** `get_skill_guide` offers the skill
  directories in the order `os.listdir` gives them, unsorted.
  `SkillGuide.AllDirectoriesOffered` states this.

## Model

| member | source | states |
|---|---|---|
| Catalog.IsMatch | src/my_mcp_server/server.py:371-372 | the pattern read on its own terms: `<skill>`, whitespace, `<name>` and any group 1, then `</name>`, whitespace, `<description>`, any group 2 and `</description>` (under DOTALL `.` matches every character) |
| Catalog.IsMatchAt | src/my_mcp_server/server.py:371-372 | the match the engine reports at a place: of all matches starting there, the first in lazy backtracking order (shortest group 1, then shortest group 2) |
| Catalog.IsFindAll | src/my_mcp_server/server.py:372 | what re.findall returns from `pos`: the leftmost reported match, then what it returns from that match's end; nothing when no match starts at or after `pos` |
| Catalog.SkipSpace | src/my_mcp_server/server.py:371-372 | the `\s*` of the pattern: the end of the run of whitespace that starts at `i`, never past the end of the text |
| Catalog.FindFrom | src/my_mcp_server/server.py:371-372 | the first place at or after `i` where a tag occurs, if any, lying inside the text; the lazy group 2 stops at the first `</description>` |
| Catalog.TailSearch | src/my_mcp_server/server.py:371-372 | `</name>\s*<description>(.*?)</description>` tried at `k`: group 2 starts after `<description>`, ends at the first `</description>` after it, and lies inside the text |
| Catalog.NameSearch | src/my_mcp_server/server.py:371-372 | the lazy group 1 grown from `k` one character at a time until the tail matches; a match keeps the attempt's start and group 1 start, ends group 1 at or after `k`, and is ordered inside the text |
| Catalog.MatchAt | src/my_mcp_server/server.py:371-372 | the regex attempt at `p`: `<skill>`, all the whitespace, `<name>`, then the search for the end of group 1; a match starts at `p` and is ordered inside the text |
| Catalog.SkipSpaceRun | src/my_mcp_server/server.py:371-372 | what SkipSpace skips is whitespace only; since the next literal starts with `<`, the greedy `\s*` can only stop there |
| Catalog.FindFromFound | src/my_mcp_server/server.py:371-372 | a found `</description>` is an occurrence of the tag |
| Catalog.FindFromFirst | src/my_mcp_server/server.py:371-372 | the search finds the first occurrence at or after the start, which is what the lazy group 2 stops at |
| Catalog.TailSearchSound | src/my_mcp_server/server.py:371-372 | whatever the tail search returns matches `</name>\s*<description>(.*?)</description>` |
| Catalog.TailSearchFirst | src/my_mcp_server/server.py:371-372 | when the tail can match at a place, the search finds it, with the shortest group 2 |
| Catalog.NameSearchSound | src/my_mcp_server/server.py:371-372 | the lazy group 1 ends where the tail first matches |
| Catalog.NameSearchFirst | src/my_mcp_server/server.py:371-372 | group 1 ends no later than any end for which the tail matches |
| Catalog.MatchAtStart | src/my_mcp_server/server.py:371-372 | once `<skill>\s*<name>` matches, the attempt is the search for the end of group 1 |
| Catalog.HeadStart | src/my_mcp_server/server.py:371-372 | any way of matching `<skill>\s*<name>` at a place fixes where group 1 starts |
| Catalog.MatchAtHead | src/my_mcp_server/server.py:371-372 | an attempt that succeeds matches `<skill>\s*<name>` at its start |
| Catalog.MatchAtTail | src/my_mcp_server/server.py:371-372 | an attempt that succeeds ends group 1 where the tail matches, with group 2 as the tail search gives it |
| Catalog.MatchOfParts | src/my_mcp_server/server.py:371-372 | a matching head, then group 1, then a matching tail, make a match of the whole pattern |
| Catalog.MatchAtSound | src/my_mcp_server/server.py:371-372 | an attempt that succeeds is a match of the pattern |
| Catalog.MatchAtFirst | src/my_mcp_server/server.py:371-372 | every match starting at a place is tried after the one the attempt returns (shortest group 1, then shortest group 2) |
| Catalog.MatchAtCorrect | src/my_mcp_server/server.py:371-372 | the attempt at `p` returns the match the regex engine reports there, and fails exactly when no match starts at `p` |
| Catalog.MatchTagsFixed | src/my_mcp_server/server.py:371-372 | in any match, `<name>` and `<description>` sit where the whitespace after the previous tag ends: `\s*` can neither stop early nor run over `<` |
| Catalog.MatchAtUnique | src/my_mcp_server/server.py:371-372 | at most one match is reported at a place |
| Catalog.Span | src/my_mcp_server/server.py:371-372 | one match of the pattern: where it starts, where groups 1 and 2 start and end; the match ends after `</description>` |
| Catalog.RawName | src/my_mcp_server/server.py:374 | the `name` of a findall tuple: the text of group 1 |
| Catalog.RawDescription | src/my_mcp_server/server.py:374 | the `description` of a findall tuple: the text of group 2 |
| Catalog.Skill | src/my_mcp_server/server.py:375-378 | the dict appended per match: a `name` and a `description` |
| Catalog.Matches | src/my_mcp_server/server.py:372 | re.findall's scan: matches come out left to right, inside the document, and do not overlap |
| Catalog.MatchesAreFindAll | src/my_mcp_server/server.py:372 | the scan returns the leftmost match, then re.findall's result from that match's end on, until no match is left |
| Catalog.FindAllUnique | src/my_mcp_server/server.py:372 | the document determines re.findall's result |
| Catalog.FindAllIsMatches | src/my_mcp_server/server.py:372 | every sequence that fits re.findall's description is the scan's result |
| Catalog.Record | src/my_mcp_server/server.py:375-378 | a record's name has no leading or trailing whitespace, and its description neither begins nor ends with `"` |
| Catalog.RecordOfTrimmed | src/my_mcp_server/server.py:375-378 | stripping keeps a trimmed name, and a description that is already trimmed of whitespace and quotes |
| Catalog.RecordsOf | src/my_mcp_server/server.py:375-378 | one record per match, record `i` built from the groups of match `i` |
| Catalog.Parse | src/my_mcp_server/server.py:369-380 | as many records as matches, each name trimmed, each description free of surrounding quotes |
| Catalog.LoadSkills | src/my_mcp_server/server.py:369-380 | the append loop returns exactly the parse of the content |
| Text.IsSpace | src/my_mcp_server/server.py:371-377 | the 29 code points of Python's `str.isspace()`, which is also the `\s` of `re` on str patterns |
| Text.Strip | src/my_mcp_server/server.py:376-377 | `str.strip()`: what is left once every leading and every trailing whitespace character is gone |
| Text.TrimLeft | src/my_mcp_server/server.py:376-377 | the leading half of `strip`: no longer than the input, and what is left does not begin with a dropped character |
| Text.TrimRight | src/my_mcp_server/server.py:376-377 | the trailing half of `strip`: no longer than the input, and what is left does not end with a dropped character |
| Text.Trim | src/my_mcp_server/server.py:376-377 | `strip` with the characters a predicate selects: what is left neither begins nor ends with one of them |
| Text.StripQuotes | src/my_mcp_server/server.py:377 | `strip('"')`: what is left once every leading and every trailing `"` is gone |
| Text.TrimOfTrimmed | src/my_mcp_server/server.py:376-377 | `strip` leaves a text unchanged whose ends need no stripping |
| Text.TrimShape | src/my_mcp_server/server.py:376-377 | `strip` removes only runs of dropped characters at both ends and keeps the middle as it was |
| Text.StripQuotesOfQuoted | src/my_mcp_server/server.py:377 | `strip('"')` of `"D"` gives back `D` when `D` itself neither begins nor ends with `"` |
| CatalogDocuments.NotInside | src/my_mcp_server/server.py:371-372 | a tag cannot start inside a text that does not contain it when the text is followed by that tag or by the end of the document |
| CatalogDocuments.QuotedAbsent | src/my_mcp_server/server.py:371-372 | quoting a description adds no `</description>` |
| CatalogDocuments.RecordOfBlock | src/my_mcp_server/server.py:375-378 | the record built from a well-formed block's groups is the block's own name and description, quoted or bare |
| CatalogDocuments.BlockIsLeftmost | src/my_mcp_server/server.py:371-372 | the span of the first block is the leftmost match from where its lead text starts |
| CatalogDocuments.DocumentFindAll | src/my_mcp_server/server.py:372 | the spans of the blocks are exactly re.findall's matches of the document |
| CatalogDocuments.ParseDocument | src/my_mcp_server/server.py:369-378 | a document of well-formed blocks, with text free of `<skill>` around them, parses to exactly the blocks' records in order |
| CatalogDocuments.NoSkillTagNoRecords | src/my_mcp_server/server.py:369-380 | a document without `<skill>` yields no records |
| CatalogDocuments.MalformedBlockMerges | src/my_mcp_server/server.py:370-378 | `<skill><name>A</name><skill><name>B</name><description>D</description>` gives a single record, named `A</name><skill><name>B` and described `D`: a block whose `</name>` is not followed by `<description>` merges into the next one |
| Text.ConcatMap | src/my_mcp_server/server.py:115-116 | the text a `+=` loop builds (here and at lines 135-136 and 398-399): the pieces for the items, in item order, with nothing between them |
| SkillListing.Entry | src/my_mcp_server/server.py:399 | one record's section: `### name`, the description, a blank line |
| SkillListing.Listing | src/my_mcp_server/server.py:397-401 | the header, the sections of all records in order, then the footer |
| SkillListing.RenderListing | src/my_mcp_server/server.py:397-402 | the `+=` loop builds the header, one `### name\ndescription\n\n` section per record, then the footer |
| SkillListing.ListAllSkills | src/my_mcp_server/server.py:395-403 | a failed read of the catalog propagates; otherwise the reply lists the parsed records |
| SkillListing.EmptyListing | src/my_mcp_server/server.py:397-402 | with no records the listing is exactly the header followed by the footer |
| SkillListing.ListingWithoutSkills | src/my_mcp_server/server.py:395-402 | a catalog without `<skill>` is listed as header and footer only |
| SkillListing.ListingLayout | src/my_mcp_server/server.py:397-402 | the header, then each record's section at its offset in record order with nothing between them, then the footer ends the text |
| Text.EndsWith | src/my_mcp_server/server.py:334 | `str.endswith`: the last characters are the suffix, compared exactly |
| CanvasGuide.TtfFonts | src/my_mcp_server/server.py:334 | the comprehension: the names ending in `.ttf`, in listing order, no more of them than were listed; which names and how often is TtfFontsKept |
| CanvasGuide.Bullets | src/my_mcp_server/server.py:335 | the generator `f'- {font}'`: one `- name` line per font, as many as there are fonts |
| CanvasGuide.FontList | src/my_mcp_server/server.py:335 | `'\n'.join` of one `- name` bullet per font, in sorted order |
| Text.Join | src/my_mcp_server/server.py:335 | `sep.join(xs)`: the pieces with `sep` between each two, empty for no pieces |
| Text.NatToString | src/my_mcp_server/server.py:345 | `str(n)` for a count: decimal digits, with no leading zero except in `0` itself |
| CanvasGuide.FontSection | src/my_mcp_server/server.py:343-347 | the fonts part of the f-string: heading, fonts path, count, the fixed text, then the font list |
| CanvasGuide.GuideText | src/my_mcp_server/server.py:337-359 | the whole f-string: the request, SKILL.md, the fonts part, the fixed requirements, then the request again |
| CanvasGuide.TtfFontsKept | src/my_mcp_server/server.py:334 | a name is kept exactly when it ends in `.ttf`, case-sensitively, as often as it was listed |
| CanvasGuide.SortedFontsListed | src/my_mcp_server/server.py:334-335 | every name in the sorted list was listed and ends in `.ttf` |
| CanvasGuide.FontListLines | src/my_mcp_server/server.py:334-335 | the font list is sorted, keeps each `.ttf` name as often as listed, and splits into one `- name` line per font; it is empty when no font is kept |
| CanvasGuide.FontListOrderIndependent | src/my_mcp_server/server.py:335 | two listings of the same names give the same font list |
| CanvasGuide.FontCount | src/my_mcp_server/server.py:343-347 | the printed count sits between its fixed texts, reads back as the number of kept fonts and equals the number of bullet lines |
| CanvasGuide.CanvasDesignGuide | src/my_mcp_server/server.py:328-359 | the guide is returned exactly when SKILL.md was read and the fonts directory listed; otherwise the failure propagates |
| CanvasGuide.ExampleKept | src/my_mcp_server/server.py:334 | of `b.ttf`, `a.ttf`, `c.otf` the two `.ttf` names are kept in listing order |
| CanvasGuide.ExampleList | src/my_mcp_server/server.py:335 | `b.ttf`, `a.ttf` are listed as `- a.ttf\n- b.ttf` |
| CanvasGuide.UpperCaseNotKept | src/my_mcp_server/server.py:334 | `A.TTF` is not kept |
| SkillGuide.DirEntry | src/my_mcp_server/server.py:420-421 | a name `os.listdir` gives, with the `os.path.isdir` answer for it |
| SkillGuide.AvailableSkills | src/my_mcp_server/server.py:420-421 | every entry of the listing that is a directory is offered, and no more names than the listing has |
| SkillGuide.AvailableSkillsAppend | src/my_mcp_server/server.py:420-421 | the offered names keep the listing's order |
| SkillGuide.AllDirectoriesOffered | src/my_mcp_server/server.py:420-422 | a listing of directories only is offered as it came, unsorted |
| SkillGuide.OfferedAreDirectories | src/my_mcp_server/server.py:420-421 | every name offered is a directory entry of the listing |
| SkillGuide.MissingSkillText | src/my_mcp_server/server.py:422 | the not-found text: the requested name, then the offered names joined by `, ` |
| SkillGuide.GuideTitle | src/my_mcp_server/server.py:427 | the heading `## name 使用指南` and a blank line |
| SkillGuide.GetSkillGuide | src/my_mcp_server/server.py:416-427 | a found guide is returned under its heading; a missing one gives the error text with the offered directories; a failed listing or a failed read propagates |
| SkillGuide.GuideContentRecovered | src/my_mcp_server/server.py:424-427 | the reply for a found guide starts with `## name 使用指南\n\n` and then holds the file unchanged |
| SkillGuide.MissingNamesSkill | src/my_mcp_server/server.py:422 | the not-found text names the requested skill verbatim |
| SkillGuide.RepliesDistinguishable | src/my_mcp_server/server.py:422-427 | a guide reply starts with `#`, a not-found reply with `错` |
| UsersTable.Row | src/my_mcp_server/server.py:115-116 | one query row: its four values `row[0]` to `row[3]`, each as text |
| UsersTable.Cells | src/my_mcp_server/server.py:116 | a row's four values joined by ` \| ` |
| UsersTable.RowLine | src/my_mcp_server/server.py:116 | a row's cells followed by a line break |
| UsersTable.Table | src/my_mcp_server/server.py:114-116 | the header line, then one line per row in row order |
| UsersTable.RenderTable | src/my_mcp_server/server.py:114-117 | the `+=` loop builds the header line and then one line per row |
| UsersTable.QueryUsers | src/my_mcp_server/server.py:114-117 | query_users returns the table of its rows |
| UsersTable.NoUsersText | src/my_mcp_server/server.py:132-133 | the not-found text names the city verbatim |
| UsersTable.QueryUsersByCity | src/my_mcp_server/server.py:132-137 | the not-found text is returned exactly when there are no rows; otherwise the table of the rows |
| UsersTable.TableStartsWithHeader | src/my_mcp_server/server.py:134 | the table starts with the header line |
| UsersTable.TableLines | src/my_mcp_server/server.py:134-136 | the table splits into the header, one `a \| b \| c \| d` line per row in row order, then the empty piece after the last line break |
| UsersTable.CellsSplit | src/my_mcp_server/server.py:136 | a row's line reads back as its four cells when no cell holds `\|` |
| Resources.ReadOutcome | src/my_mcp_server/server.py:63-68 | what opening and reading a file gives: the content, a `FileNotFoundError`, or another exception with its message |
| Resources.Reply | src/my_mcp_server/server.py:62-68 | what a tool gives its client: a text, or an exception that escapes it |
| Resources.Option | src/my_mcp_server/server.py:420-421 | a directory listing that may fail: the names `os.listdir` gives, or `None` when it raises (as also at line 334) |
| Resources.ReadFileResource | src/my_mcp_server/server.py:62-68 | no outcome raises: the content unchanged; for a missing file a `错误：` text holding the path verbatim; for any other failure `错误：` followed by the message |
| Resources.MissingFileNamesPath | src/my_mcp_server/server.py:66 | different missing paths give different texts |
| Text.SplitJoin | src/my_mcp_server/server.py:335 | `join` can be undone: the reference `Split` on the joined text gives back the pieces, when there is at least one and none holds the separator |
| Text.DecimalRoundTrip | src/my_mcp_server/server.py:345 | the printed count reads back as the count |
| Text.LexLe | src/my_mcp_server/server.py:335 | the order `sorted()` uses on str: code point by code point, a prefix before any longer text |
| Text.SortedLex | src/my_mcp_server/server.py:335 | every text is no greater than every text after it in that order |
| Text.SortLex | src/my_mcp_server/server.py:335 | `sorted()` gives a sorted permutation of its input |
| Text.SortedUnique | src/my_mcp_server/server.py:335 | a sorted arrangement of a multiset of strings is unique |

## Left out

- FastMCP registration, dispatch and `mcp.run()` are framework plumbing and are not modelled.
- The file, directory and SQLite I/O (`open`, `os.listdir`, `os.path.exists`, `os.path.isdir`, `sqlite3`) is not modelled. Its results are inputs:
  - a read is a `ReadOutcome`;
  - in `read_file_resource`, `NotFound` is a `FileNotFoundError` raised by `open`, and `OtherError` is any other exception, which the handler turns into text;
  - in `get_skill_guide`, `NotFound` is `os.path.exists` being false, and `OtherError` is an exception from `open`, which propagates;
  - in `load_skills_from_agents_md` and `get_canvas_design_guide`, any outcome other than `Ok` propagates;
  - a listing is a sequence, or `None` when `os.listdir` raises;
  - the `os.path.isdir` answer is a flag on each directory entry.
- Query rows are four strings each, because `str()` of a stored SQLite value depends on the driver and the type.
- `add_user` is not modelled, because its `rowcount` behaviour belongs to the driver. `connect_db` is pure side effect and is not modelled either.
- `get_system_info` is not modelled, because it depends on the platform, the clock and the working directory.
- The prompt templates `code_review` and `frontend_design` and `get_algorithmic_art_guide` are constant text with interpolation. They are not modelled.
- `add`, `greet` and the constant resource `get_app_settings` are not modelled, because they hold no logic worth proving.
- The hard-coded Windows paths are not modelled. The fonts path is a parameter.
- Text is a sequence of Dafny `char`s, which are Unicode scalar values. So lone surrogates cannot be represented, although a Python str can hold them (for example a name that `os.listdir` decodes with `surrogateescape`). UTF-8 decoding and text-mode newline translation (`\r\n` and `\r` read as `\n`) are part of the read and are not modelled. So "content unchanged" in `Resources.ReadFileResource` and `SkillGuide.GuideContentRecovered` means unchanged from the decoded text, not from the file's bytes.
- CanvasGuide.FontListLines: assumes the names ending in `.ttf` hold no line break.
- UsersTable.TableLines: assumes no cell holds a line break.
- UsersTable.CellsSplit: assumes no cell holds `|`. Without these assumptions the rendered lines cannot be split back.
- CatalogDocuments.ParseDocument: the round trip is proved for documents of well-formed blocks:
  - text without `<skill>` around the blocks;
  - a trimmed name without `</name>`;
  - a description without `</description>` that neither begins nor ends with `"`.

  Other documents are covered only by the general re.findall lemmas.
