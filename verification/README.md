# Image re-hosting batch job: a Dafny model

`image_resize.py` reads a product sheet and processes each row. For every row that has a SKU and an image URL, it does the following:

- It downloads the image.
- It uploads the image to Cloudinary with a signed request, under a public_id derived from the row.
- It rewrites the returned delivery URL to insert a fixed transformation.
- It collects an output row.

At the end it writes the collected rows with the source columns followed by `Variant SKU` and `Image Src`.

This project models the pure logic of that job:

- The identifier sanitiser `to_public_id`: NFKD decomposition, accent stripping, replacement of runs of non-word characters, collapse of `_` runs, and trimming of `_` (module `Sanitize`, on top of `Strings`).
- The string signed by `cld_signature` (module `Signature`):
  - parameters with an empty value are dropped;
  - the keys are sorted in code-point order (module `Ordering`);
  - the parameters are joined as `k=v` with `&`;
  - the secret is appended.
- `cld_transform_url`, which is Python's `str.replace` of `/upload/` (module `UrlTransform`).
- The request pieces built in `upload_to_cloudinary` (module `Upload`):
  - the download headers with the optional Referer;
  - `sign_params`, where `public_id` is signed only when non-empty;
  - the form body `{file, **sign_params, api_key, signature}`.
- `main` (module `Pipeline`):
  - `cell_str`;
  - the choice of public_id;
  - the row loop, with its skip rules, the `attempted` and `processed` counters, the output rows and the upload requests;
  - the output column order;
  - the early exits for missing credentials, an unreadable sheet or a missing column.

## Modelling choices

- A Python dict is `Signature.Dict`: the keys in insertion order plus the key-to-value map. This lets `sorted(params)` be modelled over the real insertion order, so "the signature does not depend on insertion order" is a theorem, not an assumption. All values are strings, because every value the program signs is a `str`.
- Strings are `seq<char>` (code points). Python's `<` on `str` is `Ordering.Lt`.
- NFKD decomposition of non-ASCII text, and which non-ASCII characters Python's `\w` accepts, come from a parameter `Sanitize.UnicodeData`. On ASCII text, NFKD is the identity and `\w` is `[A-Za-z0-9_]`, which is written out.
- `str.strip()` with no argument removes exactly the characters for which `str.isspace` holds (`Pipeline.PythonWhitespace`).
- A sheet row is a map from column name to cell text. A column absent from the map is an empty (NaN) cell.
- One call of `upload_to_cloudinary` is an oracle `Request -> UploadOutcome`. The request carries the sheet row index, the image URL, the public_id and the referer. The outcome is the returned `secure_url`, or a failure standing for any exception raised by the fetch or the upload. The hex SHA-1 digest is likewise a parameter `string -> string`.
- The loop is a fold over the per-row outcomes. Each pass of the body reads only its own row and the oracle, so the outcomes are listed first and folded in sheet order.

## Notes on the source's behaviour

- `to_public_id` replaces runs of `[^\w\-]` (image_resize.py:34), and Python's `\w` is the Unicode word class. Non-ASCII word characters that survive NFKD and the accent removal (for example CJK letters) therefore stay in the identifier. The token property (`Sanitize.IsToken`) is stated over `\w`.
- The throttle sleep sits in the `finally` of the upload `try` (image_resize.py:161-164). Rows skipped for a missing SKU or image reach `continue` first, so they do not sleep, and only attempted rows are paced. Sleeping itself is not modelled.

## Model

| member | source | states |
|---|---|---|
| `Sanitize.ToPublicId` | image_resize.py:30-36 | The result uses only `\w` and `-`, has no `__`, and does not start or end with `_`. Its letters, digits, non-`_` word characters and hyphens are exactly those of the decomposed, accent-free input, in order. It is empty exactly for `None` or for input without such characters. It is the input's words (maximal runs of those characters) joined by single `_`, so `"a b"` gives `"a_b"` and never `"ab"`. |
| `Sanitize.StripMarks` | image_resize.py:33 | No character of U+0300..U+036F remains. Text without such characters is returned unchanged. |
| `Sanitize.StripMarksAppend` | image_resize.py:33 | Removing the marks works character by character: the result for a concatenation is the concatenation of the results. |
| `Sanitize.StripMarksChar` | image_resize.py:33 | A single character is removed exactly when it is a combining mark, and is kept otherwise. |
| `Sanitize.AccentExample` | image_resize.py:33 | `e` followed by U+0301 becomes `e`: the base letter stays and only the mark goes. |
| `Sanitize.ReplaceRuns` | image_resize.py:34 | Every character of the result is in `[\w\-]`. |
| `Sanitize.ReplaceRunsKeepsSignificant` | image_resize.py:34 | Replacing runs never adds, drops or reorders a letter, digit or hyphen. |
| `Sanitize.KeptPrefixUnchanged` | image_resize.py:34 | A prefix made only of `[\w\-]` characters passes through the run replacement untouched. |
| `Sanitize.RunBecomesOneUnderscore` | image_resize.py:34 | A non-empty run of characters outside `[\w\-]`, followed by a kept character or by the end of the text, is replaced by exactly one `_` in place. |
| `Sanitize.Collapse` | image_resize.py:35 | The result has no `__` and starts with the same character as the input. |
| `Sanitize.CollapseClean` | image_resize.py:35 | Text without `__` is returned unchanged by the collapse. |
| `Sanitize.CollapseCons` | image_resize.py:35 | A leading character other than `_` stays in front of the collapsed rest. |
| `Sanitize.UnderscoreRunCollapses` | image_resize.py:35 | A maximal run of `_` becomes exactly one `_` in place, in front of the collapsed rest. |
| `Sanitize.CollapseKeepsKept` | image_resize.py:35 | Collapsing keeps a text within `[\w\-]`. |
| `Sanitize.CollapseKeepsSignificant` | image_resize.py:35 | Collapsing only drops `_`. |
| `Sanitize.StripKeepsSignificant` | image_resize.py:35 | `.strip("_")` only drops `_`. |
| `Sanitize.SanitizedIsToken` | image_resize.py:32-35 | The three rewrites and the trim always produce a token: only `[\w\-]`, no `__`, no `_` at either end. |
| `Sanitize.SanitizedKeepsSignificant` | image_resize.py:32-35 | The rewrites and the trim keep exactly the significant characters of the decomposed, accent-free text. |
| `Sanitize.WordsAreRuns` | image_resize.py:34-35 | Every word of a text is non-empty and made only of significant characters (`[\w\-]` other than `_`). |
| `Sanitize.WordsCons` | image_resize.py:34-35 | A significant character joins the first word when the text goes on with one, and forms a word of its own otherwise. |
| `Sanitize.SeparatedWords` | image_resize.py:34-35 | Replacing runs, collapsing `_` and stripping `_` give exactly the text's words joined by one `_`: each separator sits where the words were separated, and nowhere else. |
| `Sanitize.TokenSignificance` | image_resize.py:35 | A token is empty exactly when it has no significant character. |
| `Sanitize.CleanTokenUnchanged` | image_resize.py:32-35 | A token that is already decomposed and has no accents comes back unchanged. |
| `Sanitize.IdempotentOnAscii` | image_resize.py:30-36 | Sanitising an ASCII result a second time changes nothing. |
| `Sanitize.NothingSignificantGivesEmpty` | image_resize.py:32-35 | ASCII text with no letter, digit or hyphen (blank, whitespace, punctuation, underscores) gives `""`. |
| `Sanitize.RedWidgetExample` | image_resize.py:30-36 | `"Red Widget!"` becomes `"Red_Widget"`. |
| `Strings.Strip` | image_resize.py:35 | The result is the infix left after removing the leading and trailing characters of the set. Every removed character is in the set, and neither end of the result is. A text whose two ends are outside the set is returned unchanged. |
| `Ordering.LtTransitive` | image_resize.py:42 | The code-point order of `sorted` on strings is transitive. |
| `Ordering.LtTotal` | image_resize.py:42 | Any two different strings are ordered one way or the other. |
| `Ordering.Sort` | image_resize.py:42 | `sorted(params)` lists the same keys, each once, in strictly ascending order. |
| `Ordering.SortedUnique` | image_resize.py:42 | Two strictly ascending lists with the same elements are equal. |
| `Signature.Put` | image_resize.py:77-78 | Assigning a key updates the mapping. A new key goes last in insertion order, and an existing key keeps its place. |
| `Signature.Concat` | image_resize.py:82-87 | `{**a, **b}` of dicts with no common key has the keys of `a`, then those of `b`, with their own values. |
| `Signature.KeepNonEmpty` | image_resize.py:43 | The kept keys are exactly those with a non-empty value, and ascending input stays ascending. |
| `Signature.SignedKeys` | image_resize.py:42-43 | The signed keys are ascending and are exactly the parameters whose value is not empty. |
| `Signature.SignedKeysAre` | image_resize.py:42-43 | Any ascending list of exactly the non-empty parameters is the list of signed keys. |
| `Signature.Pairs` | image_resize.py:41 | Position `i` holds `key=value` for the `i`-th signed key. |
| `Signature.Sign` | image_resize.py:38-45 | The signature is the digest of the canonical string built from the non-empty parameters only, in a well-formed dict. |
| `Signature.Canonical` | image_resize.py:40-44 | The string to hash ends with the API secret. |
| `Signature.CanonicalDependsOnlyOnIncluded` | image_resize.py:40-44 | Dicts with the same non-empty parameters produce the same string to hash. |
| `Signature.InsertionOrderIrrelevant` | image_resize.py:38-45 | The signature does not depend on the order in which parameters were added. |
| `Signature.EmptyParamIrrelevant` | image_resize.py:43-45 | Adding or removing a parameter with an empty value changes neither the string to hash nor the signature. |
| `Signature.AllEmptyIsSecret` | image_resize.py:40-44 | When every value is empty, the string to hash is the secret alone. |
| `Signature.ChangedValueChangesCanonical` | image_resize.py:40-44 | Changing one signed value to another non-empty value changes the string to hash. |
| `UrlTransform.Replace` | image_resize.py:49 | The length grows by the number of non-overlapping occurrences times the difference in length. |
| `UrlTransform.Split` | image_resize.py:49 | The URL splits at the non-overlapping occurrences of the pattern, found left to right, into one more part than there are such occurrences. The first part is a prefix of the URL. |
| `UrlTransform.SplitAtFirst` | image_resize.py:49 | The first part ends at the leftmost occurrence. The remaining parts are the split of the text after that occurrence, so the search resumes past the whole occurrence. |
| `UrlTransform.SplitAbsent` | image_resize.py:49 | Text without the pattern splits into itself alone. |
| `UrlTransform.SplitJoinRoundTrip` | image_resize.py:49 | Joining the parts with the pattern gives back the original text. |
| `UrlTransform.ReplaceAtFirst` | image_resize.py:49 | The leftmost occurrence is replaced. The text before it is kept, and the replacement goes on only after that occurrence. |
| `UrlTransform.ReplaceAbsent` | image_resize.py:49 | Text without the pattern is returned unchanged. |
| `UrlTransform.ReplaceIsJoinOfSplit` | image_resize.py:49 | The replacement equals the parts joined by the replacement text, so inserted text is never rescanned. |
| `UrlTransform.SplitPartsFree` | image_resize.py:49 | No part contains the pattern. |
| `UrlTransform.CountZeroIffAbsent` | image_resize.py:49 | The occurrence count is zero exactly when the pattern does not occur. |
| `UrlTransform.TransformUrl` | image_resize.py:47-49 | The URL is unchanged exactly when it lacks `/upload/`. Otherwise each non-overlapping occurrence of `/upload/`, found left to right, becomes `/upload/<t>/`, and the length grows by `k*(\|t\|+1)`. |
| `UrlTransform.TransformUrlLeftToRight` | image_resize.py:49 | The leftmost `/upload/` becomes `/upload/<t>/`, everything before it is kept, and the rewriting resumes after that `/upload/`. |
| `UrlTransform.OverlapExample` | image_resize.py:49 | In `/upload/upload/` only the first `/upload/` is rewritten, because the second one shares its `/`. |
| `UrlTransform.NoRescanExample` | image_resize.py:49 | A transformation that itself contains `/upload/` is not rewritten again. |
| `Upload.FetchHeaders` | image_resize.py:53-58 | The User-Agent and Accept headers are always sent. Referer is sent exactly when a non-empty referer is given, with that value. |
| `Upload.SignParams` | image_resize.py:71-78 | `sign_params` holds folder, overwrite, unique_filename and timestamp in that insertion order, then `public_id` only when it is non-empty. |
| `Upload.SignParamsValues` | image_resize.py:71-78 | The signed values are the folder, `"true"`, `"false"` and the timestamp. `public_id` is present with its value exactly when it is non-empty. |
| `Upload.UnsignedNamesNotSigned` | image_resize.py:71-87 | `file`, `api_key` and `signature` are never signed parameters. |
| `Upload.UploadForm` | image_resize.py:82-87 | The form body is a well-formed dict with no repeated field. |
| `Upload.UploadFormContents` | image_resize.py:80-87 | The form holds the data URL, every signed parameter with its value, the API key, and the signature computed over the signed parameters only, in that field order. |
| `Upload.SignedKeysWithId` | image_resize.py:71-80 | With a public_id, the signed keys are folder, overwrite, public_id, timestamp, unique_filename. |
| `Upload.SignedKeysWithoutId` | image_resize.py:71-80 | Without one, the signed keys are folder, overwrite, timestamp, unique_filename. |
| `Upload.CanonicalOfUpload` | image_resize.py:71-80 | The exact text hashed for an upload: `folder=husq_parts&overwrite=true&public_id=<id>&timestamp=<ts>&unique_filename=false` followed by the secret. |
| `Pipeline.CellStr` | image_resize.py:96-100 | An empty cell gives `""`. Otherwise the result is the cell with only white space removed at both ends, and neither end of the result is white space. |
| `Pipeline.CellStrIdempotent` | image_resize.py:96-100 | Cleaning a cleaned cell changes nothing. |
| `Pipeline.CellStrEmpty` | image_resize.py:96-100 | A cell cleans to `""` exactly when it is empty or all white space. |
| `Pipeline.ChoosePublicId` | image_resize.py:144 | The choice is one of the three candidates. With the alt-text option on and a non-empty alt id, it must be the alt id. Otherwise it must be the name id when that is non-empty, and the SKU when it is not. It is empty exactly when all three candidates are unusable. |
| `Pipeline.PublicIdFor` | image_resize.py:138-144 | The public_id is the row's SKU or a sanitised token. It is non-empty whenever the SKU is non-empty. When the sheet has neither an `Image Alt Text` nor a `Product Name` column, it is the SKU itself. |
| `Pipeline.Qualifies` | image_resize.py:128-136 | A row is attempted exactly when it has both `SKU` and `Image` cells and each contains a character that is not white space. |
| `Pipeline.RequestFor` | image_resize.py:138-148 | Every upload request carries its row index, a non-empty image URL and a non-empty public_id. The referer is `None` rather than `""`. |
| `Pipeline.ChosenIdNonEmpty` | image_resize.py:128-144 | A row with a non-empty SKU always gets a non-empty public_id. |
| `Pipeline.ChosenIdIsSigned` | image_resize.py:142-148 | For every attempted row, `public_id` is among the signed parameters, with the chosen value. |
| `Pipeline.RefererSentIffStartingUrl` | image_resize.py:140-148 | The image is fetched with a Referer exactly when the sheet has `Starting Url` and the row's cell there is not blank. |
| `Pipeline.OutRow` | image_resize.py:151-156 | The output row has every source column plus `Variant SKU` and `Image Src`. Those two hold the SKU and the transformed URL, and every other column holds its cleaned cell. |
| `Pipeline.ProcessRow` | image_resize.py:128-164 | A row is skipped exactly when its cleaned SKU or Image is empty. Otherwise it is uploaded with the request for that row, and it yields an output row exactly when the upload succeeds. |
| `Pipeline.Fold` | image_resize.py:126-164 | `processed <= attempted <=` rows seen, with one output row per processed row and one request per attempted row. |
| `Pipeline.Loop` | image_resize.py:126-164 | Over the whole sheet, `processed <= attempted <=` the number of rows, with one output row per processed row. |
| `Pipeline.FoldCollects` | image_resize.py:126-164 | The fold keeps, in order, the request of every non-skipped row and the output row of every success, and counts both. |
| `Pipeline.LoopMatchesRows` | image_resize.py:126-159 | `attempted` counts the qualifying rows and `processed` the successful uploads. Requests and output rows follow sheet order, each output row carrying its row's SKU and transformed URL. |
| `Pipeline.AttemptsIgnoreUploadResults` | image_resize.py:128-148 | Which rows are attempted, and with which requests, does not depend on what the uploads return. |
| `Pipeline.AppendMissing` | image_resize.py:169-173 | The source columns are an exact prefix. Every extra column ends up present, nothing else is added, and distinct columns stay distinct. |
| `Pipeline.OutputColumnsShape` | image_resize.py:169-173 | The output columns are the source columns, then `Variant SKU` unless present, then `Image Src` unless present. |
| `Pipeline.OutputColumnSet` | image_resize.py:169-176 | The output columns name exactly the source columns and the two extra ones. |
| `Pipeline.Run` | image_resize.py:103-182 | The job exits on missing credentials (an unset or empty variable), then on an unreadable sheet, then on a missing `SKU` and then on a missing `Image` column. Otherwise it finishes with `processed <= attempted <=` rows. A sheet is written exactly when something was processed, with the source columns first and both extra columns present. |
| `Pipeline.RunMatchesRows` | image_resize.py:122-176 | When the job finishes, `attempted` is the number of qualifying rows and `processed` the number of successful uploads. The written columns are the source columns, then `Variant SKU` and `Image Src` unless already present. The written rows are, in sheet order, the output rows of the successful uploads, each carrying its row's cleaned cells, SKU and transformed URL. |
| `Pipeline.WrittenRowsFillColumns` | image_resize.py:151-176 | Every written row fills exactly the written columns and has a non-empty `Variant SKU`. |

## Left out

- The HTTP download and upload, status codes, timeouts and JSON parsing are network I/O. They are folded into the upload oracle, whose failure stands for every exception `upload_to_cloudinary` can raise.
- The SHA-1 digest is a parameter.
- Base64 and the `data:` URI are left out: the form body takes the data URL as given.
- The endpoint URL built from the cloud name is left out.
- Unicode NFKD and the non-ASCII part of `\w` are parameters, for the same reason as the digest: they are library tables.
- Reading and writing the workbook (pandas, `read_excel`, `to_excel`), dotenv loading and the clock are left out. The loaded sheet, the environment and the timestamp are inputs.
- Cells that are numbers or dates, which `str()` would render as text, are left out: cells are text or empty.
- Column names that are not strings are left out.
- `time.sleep` pacing and all `print` output are left out: they change nothing the program computes.
- Parameter values of `None` or `False`, which `cld_signature` also drops, are left out: every value the program signs is a string.
- `Signature.ChangedValueChangesCanonical` is stated for the string that is hashed, not for the signature. Whether two different strings give different digests depends on SHA-1, which is a parameter. `Signature.InsertionOrderIrrelevant` is stated for the signature itself.
- `Pipeline.Run` does not return the written rows' cell order: `out_df[all_cols]` reorders each row's cells by the column list, and a row here is a map from column name to text.
