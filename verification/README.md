# Terabox relay bot: a Dafny model of its core logic

The bot takes share links posted in a chat and fetches the files through
an aria2 daemon. It uploads each file to a dump channel, splitting it into
2 GiB video parts when it is over the upload ceiling, and then removes the
local copies. A per-user access token with a 12-hour lifetime is handed
out and activated through the `/start` command.

This project models the parts of `terabox.py` that have their own logic,
as pure functions over immutable values:

- **Common** (`common.dfy`): `Option`, `Result`, and repetition with
  Python's rule that a negative count gives an empty string.
- **Format** (`format.dfy`): how `format_size` picks its unit. The value
  is divided by 1024 until it is below 1024, stopping at TB. Also the star
  progress bar of `generate_progress_bar`.
- **Tokens** (`tokens.dfy`): the token store, as a map from user id to the
  user's single record (token, status, optional expiry). Covers
  `generate_uuid`, `activate_token`, `has_valid_token`, and the dispatch of
  `start_handler`. The clock and the newly generated UUID text are
  parameters. The clock is an integer count of microseconds, the
  resolution of `datetime`. The stored expiry is a whole number of
  milliseconds, because MongoDB keeps a BSON datetime at millisecond
  precision and drops the rest.
- **Links** (`links.dfy`): the network location as `urllib.parse.urlsplit`
  computes it (CPython 3.12.9 and later), and the plain suffix test of
  `is_valid_url` against the 13 listed domains. Also the `ValueError`
  that `urlsplit` raises on some network locations: unbalanced square
  brackets, text before '[' or after ']' other than a port, an invalid
  bracketed host, and a non-ASCII host whose NFKC normal form contains a
  delimiter. Unicode NFKC and the IP-address parser
  enter as parameters (`HostTables`). Also Python's `str.split()` and the
  first-match choice in `handle_message`. The membership lookup is a
  boolean parameter.
- **Paths** (`paths.dfy`): POSIX `os.path.splitext`, the three-digit
  zero-padded part number, and the part paths `<stem>.partNNN<ext>`.
- **Upload** (`upload.dfy`): `handle_upload`'s ceiling test, which is
  4 GiB with a user session and 2 GiB without. The 2 GiB part count and
  the part paths of `split_video`. The sequential upload loop and the
  removal discipline of `split_and_upload`, `direct_upload`, `upload_file`
  and `cleanup`.

The local disk is a set of paths. Each external step contributes only its
outcome, as a parameter:

- whether ffprobe's output parses;
- the part at which ffmpeg could not be started;
- whether ffmpeg could be started for each thumbnail;
- how each upload ended: delivered, failure reported, or an exception
  escaped;
- whether the status and request messages were deleted.

### Behaviour worth knowing

- **Bare hostnames are rejected.** A bare host such as `terabox.com/s/1`
  is rejected: `urlparse` gives such a string an empty network location
  (`Links.SchemelessDomainRejected`; without any '/',
  `Links.NoSlashRejected`).
- **Any prefix passes the suffix test.** The test has no label boundary,
  so `notterabox.com` passes (`Links.AnyPrefixAccepted`).
- **An explicit port fails the test.** `terabox.com:443` does not end with
  a listed domain (`Links.PortRejected`).
- **Some links abort the handler.** `is_valid_url` is called outside the
  `try` of `handle_message`. When `urlparse` raises `ValueError`, the
  handler ends with no reply at all. One example is
  `https://a\uFF0Fterabox.com`: NFKC turns the fullwidth solidus into
  '/'. The suffix test alone would accept this link
  (`Links.HiddenDelimiterRaises`). A message of plain ASCII text without
  square brackets never raises (`Links.PlainMessageNeverRaises`). Text
  around a bracketed address also raises, as in `https://[::1]terabox.com`
  (`Links.TextAroundBracketsRaises`).
- **The token does not gate downloads.** `handle_message` never calls
  `has_valid_token`: any channel member with a listed link starts a
  download. `Links.HandleMessage` therefore has no
  token input.
- **Re-activation within one millisecond fails.** `activate_token` returns
  the store's modified count, and a `$set` that writes identical values
  modifies nothing. The stored expiry has millisecond precision. So
  presenting the active token again within the same millisecond returns
  false. It succeeds once the clock has moved into a later millisecond
  (`Tokens.Activate`, `Tokens.ReactivationExtends`).
- **Cleanup steps are not independent.** `cleanup` runs its three steps in
  one `try`. A failed message deletion skips the removal of the downloaded
  file (`Upload.Cleanup`).
- **A failed split leaks the parts already written.** When `split_video`
  raises, `split_files` was never bound, so the `finally` of
  `split_and_upload` raises too and removes nothing. Parts written before
  the failure stay on disk (`Upload.SplitFailureLeaksParts`).
- **A thumbnail can outlive its upload.** `upload_file` removes the
  thumbnail only when `generate_thumbnail` returned it. When ffmpeg cannot
  be started, a `.jpg` already next to the video stays on disk
  (`Upload.UploadFile`).
- **Part names sort only up to part 999.** From part 1000 on, the padded
  names stop sorting in part order (`Paths.ThousandthPartSortsEarly`). The
  list itself is still in order and the names stay distinct.

## Model

| member | source | states |
|---|---|---|
| Format.FormatSize | terabox.py:113-118 | The unit is TB exactly when the size is at least 1024^4. Otherwise it is the smallest unit k with size < 1024^(k+1), and the size is at least 1024^k when k > 0. The value shown is the size divided by 1024^k. |
| Format.ProgressBar | terabox.py:120-123 | The bar is bracketed and its filled stars come before its empty stars. It has max(filled, length) cells. For 0 ≤ percent ≤ 100 it has exactly `length` cells, of which floor(percent/100·length) are filled. |
| Tokens.Issue | terabox.py:137-144 | Returns the new token. The user's record becomes (token, inactive, no expiry), replacing any earlier record. The user is added to the key set and every other user's record is unchanged. |
| Tokens.Activate | terabox.py:146-152 | Reports success exactly when the store changed. On a mismatched token or a missing record the store is unchanged. On a match the record becomes active, and its expiry is now + 12 h truncated to the whole millisecond, as MongoDB stores it. Other users are untouched. |
| Tokens.ActivateIffMatch | terabox.py:146-152 | When the stored expiry differs from the one this call would write, activation succeeds iff the user's record holds the presented token. |
| Tokens.ReactivationExtends | terabox.py:146-152 | Activating the same token again at a later time reports success iff the later call falls in a later millisecond. The expiry becomes the later time + 12 h, at millisecond precision, and never shrinks. |
| Tokens.TokenBoundToUser | terabox.py:146-152 | A token issued to u, presented by another user v whose record holds a different token, changes nothing and is reported as a failure. u's token stays invalid. |
| Tokens.OtherUserCannotValidate | terabox.py:146-158 | Whatever token another user presents, the activation leaves u's freshly issued record as it was, and u's token stays invalid. |
| Tokens.FreshTokenNeverValid | terabox.py:154-158 | Right after issuance the user has no valid token, at any time. |
| Tokens.HasValidToken | terabox.py:154-158 | Valid iff the user has a record that is active, has an expiry, and the clock's millisecond is before the stored millisecond expiry. Comparing the µs clock with the stored datetime is the same as comparing milliseconds. |
| Tokens.ActivatedValidUntilExpiry | terabox.py:146-158 | After issuing and activating at time t (µs), the token is valid at `now` iff now < t − (t mod 1000) + 12 h: the stored expiry is truncated to the millisecond, and the check is strict. |
| Tokens.ReissueReplaces | terabox.py:137-144 | A second issuance replaces the first token, which can then no longer be activated. |
| Tokens.IssuePreservesWellFormed | terabox.py:137-144 | Issuing keeps the invariant that every active record has an expiry. |
| Tokens.ActivatePreservesWellFormed | terabox.py:146-152 | Activating keeps the invariant that every active record has an expiry. |
| Tokens.StartHandler | terabox.py:228-242 | A 36-character argument only attempts activation. The reply is "activated" iff the user's record holds that token and activation changes it; the store then becomes the old store with that record active and expiring at the millisecond expiry. Otherwise the reply is "invalid" and the store is unchanged. Without such an argument: "already active" iff the user holds a valid token (store unchanged), else a link with the new token, now stored inactive. Other users are never touched. |
| Tokens.StartHandshake | terabox.py:228-242 | `/start` issues a token. Sending that 36-character token back through `/start` activates it. The user is then valid exactly while now < t − (t mod 1000) + 12 h, for activation time t in µs. |
| Tokens.RepeatedStartReplacesToken | terabox.py:234-240 | Two `/start` calls before activation each hand out a new token. The second replaces the first and stays inactive. |
| Tokens.StartPreservesWellFormed | terabox.py:228-242 | `/start` keeps the invariant that every active record has an expiry. |
| Links.DomainsAreHostText | terabox.py:25-30 | Every listed domain is plain host text: no '/', '?' or '#', no tab, CR or LF, only ASCII and no square bracket. |
| Links.NetlocIsAuthority | terabox.py:160-162 | The network location `urlparse` reports is empty unless the text after the scheme starts with "//". Then it is the longest run after "//" without '/', '?' or '#'. |
| Links.NetlocOfHttps | terabox.py:160-162 | For "https://" + host + rest, the network location is exactly the host. The host has no '/', '?' or '#', and the rest is empty or starts with one of them. The link test raises iff `urlsplit` refuses that host, and never on a plain ASCII host without brackets. |
| Links.BracketLayout | terabox.py:160-162 | For a network location before[inner]after without '@', `urlsplit` raises iff there is text before '[', text after ']' that does not start with ':', an inner host that fails the address check, or an NFKC rejection. |
| Links.TextAroundBracketsRaises | terabox.py:160-162 | An https link whose host has text before '[' or non-port text after ']', such as "https://[::1]terabox.com", makes `is_valid_url` raise, whatever the address check says. |
| Links.HttpsLinkAccepted | terabox.py:160-162 | An https link passes the suffix test iff its host ends with one of the listed domains. `is_valid_url` then raises iff `urlsplit` refuses the host, and otherwise returns that verdict. |
| Links.AnyPrefixAccepted | terabox.py:160-162 | Any host text followed by a listed domain passes the suffix test, which has no dot boundary. `is_valid_url` returns true unless `urlsplit` refuses the host, and always does for a plain prefix. |
| Links.NoSlashRejected | terabox.py:160-162 | A string without '/' has an empty network location. `is_valid_url` returns false on it and does not raise. |
| Links.PortRejected | terabox.py:160-162 | Any listed domain followed by an explicit numeric port is rejected, whatever path follows. The port is part of the network location and no listed domain ends in a digit. No exception is raised. |
| Links.SchemelessDomainRejected | terabox.py:160-162 | A listed domain written without a scheme, such as "terabox.com/s/1", is rejected without raising, for any path with no "//" that does not start with '/'. |
| Links.NoDoubleSlashRejected | terabox.py:160-162 | A URL with no "//" anywhere has an empty network location, and `is_valid_url` returns false on it without raising. |
| Links.UnlistedHostRejected | terabox.py:160-162 | An https link whose plain host ends with no listed domain makes `is_valid_url` return false without raising. |
| Links.ExampleHostUnlisted | terabox.py:25-30 | "example.com" is plain host text and ends with none of the listed domains. |
| Links.WordsCoverText | terabox.py:267 | The words of a message, concatenated, are the message with every whitespace character removed. |
| Links.WordsSplitAtSpace | terabox.py:267 | Every whitespace character is a word boundary. The words of a + separator + b are the words of a followed by the words of b. Together with `Links.Words`' contract (each word is non-empty and has no whitespace), this fixes the split completely. |
| Links.Words | terabox.py:267 | Every word is non-empty and contains no whitespace. |
| Links.SingleWord | terabox.py:267 | A non-empty text without whitespace splits into itself. |
| Links.Scan | terabox.py:267-269 | Given one result per word: "invalid link" iff every word was cleanly rejected. Otherwise the outcome names the first word that was accepted or raised, and every earlier word was cleanly rejected. |
| Links.AnswerWords | terabox.py:267-272 | For a member's words: "invalid link" iff the link test returns false on every word. A download starts with word k only if the test accepts word k and returns false on every earlier word. The handler aborts on word k only if the test raises there and returns false on every earlier word. |
| Links.HandleMessage | terabox.py:256-272 | Non-members, and only they, get the join prompt. A member's message is answered from its words as `Links.AnswerWords` states. |
| Links.SingleWordOutcome | terabox.py:267-269 | A one-word message gets exactly the link test's verdict on that word: a download if it passes, "invalid link" if it fails, and an aborted handler if it raises. |
| Links.UnsupportedLinkRejected | terabox.py:267-269 | A message that is one https link to a plain host ending with no listed domain, such as "https://example.com/x", gets the "invalid link" reply, and no download is started. |
| Links.PlainMessageNeverRaises | terabox.py:267-269 | On plain text (ASCII, no square brackets) the link test never raises on any word, and the handler never aborts, whatever the Unicode tables say. |
| Links.HiddenDelimiterRaises | terabox.py:267-269 | A non-ASCII prefix that NFKC changes so that a delimiter appears (such as a fullwidth solidus) passes the suffix test before a listed domain. Yet `is_valid_url` raises on it, so the handler aborts with no reply. |
| Links.FullwidthSolidusPrefix | terabox.py:160-162 | The prefix "a\uFF0F" meets the character conditions of `Links.HiddenDelimiterRaises`. |
| Paths.SplitExt | terabox.py:391 | Root and extension concatenate back to the path. A non-empty extension is one '.' followed by no '.' or '/'. The part of the last component before it is not all dots. An empty extension means no suitable dot exists. |
| Paths.ZeroPad3Inverse | terabox.py:391 | Reading the padded part number back gives the number: padding loses nothing. |
| Paths.PartPathInjective | terabox.py:391 | Two part numbers with the same path are equal. |
| Paths.PartPathsDistinct | terabox.py:388-399 | The parts of one split are pairwise distinct, and none is the input path. |
| Paths.PartPathsSorted | terabox.py:391 | With at most 999 parts, the names are strictly increasing in Python string order. |
| Paths.ThousandthPartSortsEarly | terabox.py:391 | Part 1000's name sorts before part 999's. |
| Upload.SplitThreshold | terabox.py:306-314 | A file is split iff its size is strictly above 4 GiB with a user session, or 2 GiB without. A size equal to the ceiling is uploaded directly; one byte more is split. The split test is monotone in the size. |
| Upload.PartCount | terabox.py:386 | The part count is the least n with size ≤ n · 2 GiB. |
| Upload.SplitGivesSeveralParts | terabox.py:386 | Any file that needs splitting yields at least 2 parts, and at least 3 under the 4 GiB ceiling, because parts stay 2 GiB. |
| Upload.SplitVideo | terabox.py:374-404 | The split succeeds iff the probe parses, the count is non-zero, and every ffmpeg starts. It then returns ceil(size / 2 GiB) paths named by part number and adds exactly them to the disk. On failure it only adds part paths, and nothing at all on a probe or count failure. |
| Upload.UploadInOrder | terabox.py:319-320 | The attempted files are a prefix of the parts. All parts are attempted iff no upload lets an exception escape; otherwise the loop stops at the first one that does. Exactly the thumbnails of the attempted files for which ffmpeg could be started are removed. |
| Upload.UploadFile | terabox.py:331-361 | The thumbnail is on disk afterwards iff it was there before and ffmpeg could not be started, because `generate_thumbnail` then returns no path. Every other file is present afterwards iff it was before. |
| Upload.RemoveEach | terabox.py:321-323 | Removing each listed part leaves the disk minus exactly those parts. |
| Upload.SplitAndUpload | terabox.py:316-323 | If the split returns, every part is absent afterwards whatever the uploads did. The disk is then the original minus the parts and the removed thumbnails of the attempted parts, and an exception is raised iff some upload let one escape. If the split raised, nothing is uploaded or removed and only part paths were added. |
| Upload.DirectUpload | terabox.py:325-329 | The one file is attempted and then absent. Its thumbnail remains iff it was there before and ffmpeg could not be started. Every other file is unchanged, and an exception leaves iff the upload let one escape. |
| Upload.HandleUpload | terabox.py:306-314 | At or below the ceiling, the file itself is uploaded and removed, and an exception leaves iff that upload let one escape. Above the ceiling, only its parts are attempted and the file itself stays. A failed split raises with nothing attempted. After a successful split, it raises iff some part's upload let an exception escape, all parts are attempted when none did, and no part remains on disk. |
| Upload.SplitKeepsSource | terabox.py:316-323 | Splitting and uploading never remove the file being split. |
| Upload.Cleanup | terabox.py:412-419 | The downloaded file is removed iff both message deletions succeeded; otherwise the disk is unchanged. Nothing else is removed. |
| Upload.Relay | terabox.py:277-288 | The failure reply is sent iff the split raised or some part's upload let an exception escape (above the ceiling), or the direct upload let one escape (at or below it). The attempted files are the file itself, none after a failed split, or a prefix of the parts that is all of them when no failure reply is sent. After a successful split no part remains. The disk holds nothing beyond the original files and the part paths, and the downloaded file is gone whenever both deletions succeeded. |
| Upload.FiveGiBRelay | terabox.py:306-323 | A 5 GiB download without a user session is split into exactly 3 parts and uploaded in order. None of the 3 part files remains, whatever each upload did. |
| Upload.SplitFailureLeaksParts | terabox.py:316-323 | When ffmpeg cannot start for part k, the failure reaches the requester, nothing is uploaded, and parts 1..k stay on disk even after cleanup. |

## Left out

- The aria2 fetch is not modelled: job submission (`process_download`'s
  `add_uris`) and the 15-second polling loop (`track_download_progress`)
  talk to an external daemon. That loop only waits for `is_complete` and
  has no branch for a failed job. When an aria2 job fails, `is_complete`
  stays false and the loop polls forever: no failure reply is sent and
  `cleanup` never runs. The model starts after a finished download, so
  this hang is outside it.
- Telegram calls are not modelled: sending, editing and deleting messages,
  `safe_edit`'s FloodWait retry, `upload_progress`, `copy_message`, the
  `ButtonUrlInvalid` fallback reply and `check_membership`. They are
  network side effects. Membership and each deletion's success enter as
  booleans, and each upload's end state enters through the `deliver`
  function.
- ffmpeg and ffprobe are not run: `generate_thumbnail`, `get_video_metadata`
  and the duration probe in `split_video` are external processes. The
  probe appears only as whether its output parses.
- Upload.SplitVideo: the floating-point start offsets and part durations
  are not modelled, only the part count and the names. ffmpeg's exit status
  is unchecked, so every started part is taken as written. Removal does not
  depend on it, because `safe_remove` ignores missing files.
- Format.FormatSize: the two-decimal text rendering is not modelled. The
  value is exact real division; the source converts a huge integer to a
  binary float.
- Format.ProgressBar: the filled count uses exact real arithmetic. The
  source computes `percent / 100 * length` in binary floating point, so
  its count can differ from the model's by one cell, lower or higher. For
  example, `percent` just below 30 as a float, with length 10, fills 3
  cells in Python and 2 in the model.
- Format.ProgressBar: the star literals in `terabox.py` are stored as
  the UTF-8 bytes of ★ and ☆ decoded as cp1252, three code points each,
  like every non-ASCII literal in the file. The model reads them as the
  single characters U+2605 and U+2606. Read code point for code point,
  each filled cell of the source's bar is three code points long, and the
  empty run is shortened by three per filled cell.
- Upload.PartCount: this is integer ceiling division. The source divides
  as floats, which agrees for every size below 2^53 bytes.
- Links.CheckUrl: Unicode NFKC normalisation and the `ipaddress` check
  of a bracketed host are not computed. They enter as the two functions
  of `HostTables`, so the model says when `urlsplit` raises in terms of
  their answers. The check of text around the brackets is that of
  CPython 3.12.9 and later; earlier 3.12 releases look only at the text
  between the first '[' and the next ']', and accept
  `https://[::1]terabox.com` when "::1" passes. `urlsplit`'s URL cache is
  not modelled.
- Tokens.HasValidToken: an active record without an expiry makes the source
  raise `TypeError` when it compares times. The model answers false
  instead. No sequence of issue and activate creates such a record
  (`Tokens.WellFormed` and its preservation lemmas).
- MongoDB, the `uuid4` generator and `datetime.now()` are replaced by a
  map, a token parameter and a time parameter. The time is one integer
  count of microseconds. `datetime.now()` is a naive local time. pymongo
  stores a naive datetime unchanged and returns it naive. So the stored
  expiry and the current time are on the same clock, and time zones are
  not modelled. The store's indexes have no
  behaviour to model.
- `shorten_url`, `Config` and environment loading with `sys.exit`, the
  Flask keep-alive, and the signal handlers are plumbing with no logic of
  their own.
