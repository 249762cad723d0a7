# A verified model of a read-only web file browser

The system is a small FastAPI application (`main.py`). It serves a directory tree, the
`data/` directory under its working directory, over HTTP. Directories become listings with
breadcrumbs, sizes and an optional `README.md`. Files become text, Markdown or CSV previews,
or raw bytes. This project models the deterministic logic of that handler in Dafny and
proves what it does:

- `Navigation` (breadcrumbs.dfy): `generate_breadcrumbs`, as a loop method proved against
  a recursive definition of the crumbs.
- `SizeFormat` (size_format.dfy): `DirEntry.human_format`, as a loop method proved against
  a function. The unit is chosen with integers.
- `DirListing` (dir_listing.dfy): `DirEntry.from_path` and the listing comprehension of
  `handle_dir`, including the size that the glob finds two levels down.
- `FileKinds` (file_kinds.dfy): pathlib's `suffix` and the `if/elif` dispatch of
  `handle_file`.
- `Server` (server.dfy): the title rule, the 404, the directory/file branch and the two
  payloads (`handle_dir`, `handle_file`, `serve`).
- `FsTree` (fs_tree.dfy): the filesystem as a tree. A directory lists `(name, node)` entries
  in `os.listdir` order. Paths resolve segment by segment, as the operating system does:
  `.` stays put, `..` goes to the parent, and the root is its own parent.
- `Text` (text.dfy): `str * int`, `str.split` and `str.join` on one character, and decimal
  rendering. `Wrappers` (wrappers.dfy) holds `Option` and `Result`.

Modelling choices:

- The request path is given as pathlib's `parts`: a sequence of segments.
- `fs_path = DATA_PATH / http_path` is concatenation of segments with no normalisation.
  So `..` is kept, as in the source. No containment is claimed.
  `PathWithoutParentStaysInData` proves that a path without `..` stays below the data
  directory. `ParentSegmentEscapesData` shows a path with `..` that serves a file outside it.
- The size table has six units, so 1000^6 bytes or more would index past it. In the source
  that is an uncaught `IndexError`, which the framework answers with status 500.
  The model treats it as an error result (`UnitIndexOutOfRange`, then
  `ServerError(SizeOutOfUnitTable)`), not as a precondition.
- `README.md` is read with only `FileNotFoundError` caught. If `README.md` is a directory,
  the exception propagates and gives a 500 (`ReadmeIsADirectory`).
- `read_text` is the parameter `readText: seq<byte> -> Option<string>`. `None` stands for a
  decoding failure, which is also an uncaught exception and gives a 500.
- Python's `human_format` loop divides a float by 1000. The model divides an integer by
  1000, rounding down. Both loops stop at the same count, because
  `floor(n / 1000^k) >= 1000` exactly when `n >= 1000^(k+1)`. The model assumes the float
  divisions are exact enough not to cross a boundary, which holds for sizes below 2^53.
  `MagnitudeBounds` and `MagnitudeUnique` state the count as the largest k with
  `1000^k <= n`.

Behaviour of the code that the model keeps exactly:

- The code keeps 999999999999 bytes in GB and prints about "1000.0 GB", because the unit
  is chosen before rounding (`HumanSizeExamples`).
- Every entry's link ends in "/", files included (`FromEntry`).
- There is no path-traversal check and no 403 (`ParentSegmentEscapesData`).
- A directory's size counts only the files two levels down (`GlobIsDepthTwo`).

## Model

| member | source | states |
|---|---|---|
| Text.Repeat | main.py:41 | `'../' * k` has length three times k |
| Text.Split | main.py:123 | `text.split("\n")` gives at least one piece, and no piece holds the separator |
| Text.JoinSplit | main.py:123 | joining the split lines with "\n" gives back the file text, so no text is lost before CSV tokenising |
| Text.SplitJoin | main.py:58 | splitting a join of separator-free pieces on the separator gives back the pieces |
| Text.DecimalString | main.py:165 | the whole-byte rendering is one or more decimal digits with no leading zero |
| Text.DecimalRoundTrip | main.py:165 | the digits printed for a byte count read back as that count |
| FsTree.Child | main.py:182 | a child lookup fails exactly when no entry has the name, and otherwise returns an entry's node with that name |
| FsTree.Walk | main.py:61-63 | resolving a path either fails (the path does not exist) or ends on a non-empty trail that still starts at the node it started from |
| FsTree.WalkAppend | main.py:61 | resolving `a + b` is resolving `a` and then `b` from where `a` ended |
| FsTree.WalkStaysBelow | main.py:61 | a path with no `..` ends on a trail that extends the trail it started from |
| FsTree.BytesAtDepthAtMostTotal | main.py:148 | the files at any one depth hold at most the bytes of the whole subtree |
| Navigation.Breadcrumbs | main.py:30-43 | there is one crumb more than there are path segments |
| Navigation.BreadcrumbsShape | main.py:30-43 | the root crumb ("Files", "/") is first; crumb i+1 is named by segment i and links "../" repeated n-i-1 times |
| Navigation.RootPathCrumbs | main.py:31-34 | the root path has no segments and only the root crumb |
| Navigation.BreadcrumbLinkLengths | main.py:38-41 | the last crumb's link is empty, and each earlier segment crumb's link is three characters longer than the next |
| Navigation.GenerateBreadcrumbs | main.py:30-43 | the loop builds exactly the crumbs of that shape, which equal the recursive definition |
| SizeFormat.MagnitudeBounds | main.py:157-161 | the number of divisions k satisfies 1000^k <= n < 1000^(k+1) (just the upper bound for n = 0) |
| SizeFormat.MagnitudeUnique | main.py:157-161 | only one k satisfies those bounds, so the count is the largest k with 1000^k <= n |
| SizeFormat.HumanSizeSpec | main.py:156-167 | an index error exactly from 1000^6 bytes; whole digits and " B" below 1000; otherwise unit k, with 1 <= k <= 5 and 1000^k <= n < 1000^(k+1) |
| SizeFormat.WholeBytesText | main.py:163-165 | below 1000 the text is the digits of the count with no decimal point, followed by " B" |
| SizeFormat.HumanSizeExamples | main.py:156-167 | 0 gives "0 B" and 999 gives "999 B"; 1000 is KB; 1500000 is MB; 999999999999 stays GB; 1000^6 is an error |
| SizeFormat.HumanFormat | main.py:156-167 | the division loop and table lookup compute HumanSize |
| DirListing.GlobIsDepthTwo | main.py:148 | the directory size equals the bytes of the regular files exactly two levels down |
| DirListing.DirectFilesIgnored | main.py:148 | adding a file directly inside the directory leaves its size unchanged |
| DirListing.DeeperContentIgnored | main.py:148 | replacing the contents of a directory two levels down leaves the size unchanged |
| DirListing.OnlyFilesMeansZero | main.py:148 | an empty directory, or one holding only files, has size 0 |
| DirListing.GlobAtMostTotal | main.py:148 | the shown size never exceeds the recursive total of the files below |
| DirListing.SizeCountsGrandchildrenOnly | main.py:147-148 | D holding A/f (10 bytes) and g (5 bytes) has size 10 |
| DirListing.FromEntry | main.py:146-153 | a row exists exactly when its raw size fits the unit table; its name is the child's name, its link is name + "/", and its size is the formatted raw size |
| DirListing.ListEntries | main.py:177-178 | the listing succeeds exactly when every child's row does; it then has one row per child, in listing order |
| FileKinds.SuffixSpec | main.py:96 | the suffix is non-empty exactly when the last dot is neither first nor last; it then runs from that dot to the end and holds no other dot |
| FileKinds.SuffixExamples | main.py:96 | "notes.md" gives ".md", "archive.tar.gz" gives ".gz", and ".bashrc", "trailing." and "README" give "" |
| FileKinds.Classify | main.py:93-136 | download always means raw bytes; otherwise PlainText exactly for the six text suffixes, Markdown exactly for ".md", Csv exactly for ".csv", and raw bytes for everything else |
| FileKinds.ClassifyExamples | main.py:93-136 | .md is Markdown, .py is PlainText, .csv is Csv, .png and the upper-case .TXT are raw bytes, and a download is raw bytes |
| Server.TitleRule | main.py:58 | the title is "Files" for the root path; otherwise it is the path string, from which the segments read back |
| Server.HandleFile | main.py:85-136 | raw bytes exactly for the raw kind, with the file's bytes; a 500 exactly when a preview's text does not decode; otherwise the preview of the chosen kind with the title, crumbs and text; CSV lines are at least one, free of newlines, and rejoin to the text |
| Server.ReadReadme | main.py:180-184 | no README exactly when no "README.md" child exists; a README exactly when it is a file that decodes, and then it is that file's decoded text |
| Server.HandleDir | main.py:170-196 | a 500 exactly when a size is out of the unit table or the README fails; otherwise one row per child in order, named and linked by it, `empty_directory` exactly when there are no children, `readme` absent exactly when "README.md" is absent and otherwise the README's text |
| Server.ServeNotFound | main.py:61-64 | 404 exactly when the joined path does not resolve |
| Server.ServeDirectory | main.py:58-74 | a directory gets a listing (or a 500) with the title rule, the path's breadcrumbs and one row per child |
| Server.ServeFile | main.py:68-82 | a file never gets a listing; the response is `handle_file`'s for the path's breadcrumbs, its title and the last segment's suffix, so a download gives the bytes and otherwise the suffix picks the preview |
| Server.PathWithoutParentStaysInData | main.py:61 | a request path without `..` resolves inside the data directory |
| Server.ParentSegmentEscapesData | main.py:55-64 | "../secret.txt" serves a file outside the data directory, because segments are joined unchecked |
| Server.RootListingExample | main.py:177-196 | GET / on data holding docs/ and readme.txt lists two rows, is not empty and has no README |
| Server.TextFileExample | main.py:93-106 | GET /readme.txt shows the decoded text; with `download` it gives the raw bytes |

## Left out

- The FastAPI app, `Request`, `Response` headers, `HTTPException` and Jinja2 rendering. The
  model stops at the outcome: 404, 500, raw bytes, or a named template with its payload.
- Markdown-to-HTML conversion (main.py:115-117). The payload carries the text handed to
  the converter.
- CSV tokenising by `csv.reader` (main.py:123-124). The payload carries the lines that
  `split("\n")` hands to the tokeniser.
- The one-decimal float rendering `f"{x:.1f}"` for KB and above (main.py:167).
  `Scaled(bytes, magnitude, unit)` records the value that would be printed, namely bytes
  divided by 1000^magnitude, and its unit.
- HumanFormat: does not model the float arithmetic. Unit selection uses integer division,
  which matches the float loop while the float quotients stay exact (sizes below 2^53).
- Text decoding, and the universal-newline translation of `read_text`. Both belong to the
  `readText` parameter.
- Real filesystem access. Symbolic links, permissions, stat failures and changes during a
  request are not modelled. Entry names are assumed distinct, as in a real directory.
- The `abs()` of `human_format`: sizes are natural numbers here.
- pathlib's parsing of the URL into `parts` (collapsing `//`, dropping `.`), and absolute
  request paths. The model takes `parts` as given.
- The unused `HTTPBasic` stub (main.py:15, 50), and `main`, `parse_args`,
  `start_dev_server` and `start_production_server` (main.py:199-247). These are command
  line and server start-up code.
- Any path-traversal guarantee: the code has none (main.py:55, 61).
