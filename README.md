# Media bot core: rate limiter, artifact URLs and the delete path

This project models the deterministic logic inside the bot's `main.py` and
proves properties of it in Dafny:

- the `slow(interval)` decorator, which lets a callback fire at most once per
  `interval` and drops (never queues) the calls that come too early. It is
  modelled as the class `RateLimiter.Throttled`, whose mutable `lastUpdate`
  field plays the role of the shared `last_update[0]`. Pure trace functions
  (`Accepted`, `Decisions`, `LastAfter`) describe any sequence of calls, and
  the class's invariant ties the field to them;
- the progress percentage `100 * current // total` shown while downloading,
  with Python's floor division written out (`Progress`);
- Python's `quote` and `unquote` on the UTF-8 bytes of a text
  (`PercentEncoding`). This is percent-encoding as in section 2.1 of RFC 3986,
  with the unreserved characters of section 2.3 and `/` left as they are;
- what `pathlib.Path(...).name` and `.parent.name` return (`Paths`);
- the random directory token, the download directory, the published URL,
  the path the delete control recovers from the message text, and the
  allow-list gate of the media handler (`Artifacts`).

Time is an integer tick. The wrapped callback is a Dafny function value. The
random byte behind the directory token, the sender's username, the allow-list
and the path the download returns are all parameters.

Three things the code does are easy to miss:

- `progress_bar` is decorated once, when the module is imported
  (main.py:98), so every transfer shares one limiter. It is not one limiter per
  transfer. `Progress.DecorateProgressBar` builds that single instance.
- The directory token is one random byte in hex, so there are exactly 256
  directories (`Artifacts.DirTokenDecodes`). Nothing makes the name
  unguessable or unique.
- The text rendered by the `hex()` call has lower-case digits. `quote` writes
  upper-case escapes, and `unquote` accepts both cases.

## Model

| member | source | states |
|---|---|---|
| `RateLimiter.Throttled.constructor` | main.py:59-63 | the state starts at the decoration time and nothing has fired yet |
| `RateLimiter.Throttled.Call` | main.py:66-84 | a call fires iff at least `interval` ticks have passed since the last accepted call; when it fires, the timestamp becomes `now` and the result is `func(arg)`; a dropped call returns `None` and changes neither the timestamp nor the record of accepted calls; the accepted calls stay spaced |
| `RateLimiter.Fires` | main.py:68 | the accept/drop test of both wrappers (main.py:68, 76): a call fires iff `now` is at least `interval` after the stored timestamp; `Throttled.Call` and `DecisionAt` state what firing does to the state |
| `RateLimiter.DecisionAt` | main.py:66-70 | in any trace, call `i` fires iff it is at least `interval` after the timestamp the earlier calls left; afterwards the timestamp is that call's time if it fired and unchanged if not |
| `RateLimiter.AcceptedSpaced` | main.py:66-79 | any two consecutive accepted calls are at least `interval` apart, and the first is at least `interval` after the decoration time, whatever order the timestamps arrive in |
| `RateLimiter.AcceptedSelectsFired` | main.py:66-79 | the accepted timestamps are exactly the timestamps of the calls that fired, in call order: no dropped call is deferred or replayed |
| `RateLimiter.AcceptedSnoc` | main.py:66-71 | one more call extends the accepted list by its own timestamp iff it fires, and moves the timestamp only then |
| `RateLimiter.LastAfterIsLastAccepted` | main.py:61-70 | the stored timestamp is always the last accepted call's time, or the decoration time when nothing has fired |
| `RateLimiter.EarlyCallsDropped` | main.py:61-69 | every call made less than `interval` after decoration is dropped and leaves the state as it was |
| `RateLimiter.AcceptedWithinCalls` | main.py:66-71 | every accepted timestamp is the timestamp of an actual call |
| `RateLimiter.AcceptedCountBound` | main.py:66-79 | with a positive interval, the callback fires at most `(end - start) / interval` times for calls made up to `end` |
| `Progress.FloorDiv` | main.py:101 | Python's `//`: the quotient rounded toward negative infinity, for either sign of the divisor |
| `Progress.Percentage` | main.py:99-103 | nothing is displayed exactly when `total` is zero (the division raises inside the `try` and the bare `except` swallows it) |
| `Progress.PercentageInRange` | main.py:101 | for `0 <= current <= total` and `total > 0`, the shown value lies in 0..100 and is the largest `p` with `p * total <= 100 * current` |
| `Progress.PercentageMonotone` | main.py:101 | the shown value never decreases as `current` grows |
| `Progress.PercentageEnds` | main.py:101 | a complete transfer shows 100, and an empty one shows 0 |
| `Progress.DecorateProgressBar` | main.py:98-101 | `progress_bar` is one limiter with interval 2, starting at import time, around the percentage |
| `PercentEncoding.Quote` | main.py:134 | `quote` emits only unreserved bytes, `/` and `%`, and its output contains a `/` iff its input does, and is never shorter than its input |
| `PercentEncoding.QuoteAppend` | main.py:134 | `quote` works byte by byte: quoting a concatenation concatenates the quoted pieces |
| `PercentEncoding.QuoteAroundSlash` | main.py:134 | every `/` stays in place: `quote(a/b)` is `quote(a)`, then `/`, then `quote(b)` |
| `PercentEncoding.Unquote` | main.py:147 | `unquote` never lengthens the text and returns text without `%` unchanged |
| `PercentEncoding.UnquoteQuote` | main.py:134-147 | `unquote(quote(s)) == s` for every byte string |
| `PercentEncoding.QuoteInjective` | main.py:134 | distinct file names give distinct quoted names |
| `PercentEncoding.UnquoteAppend` | main.py:147 | no escape reaches across a byte that is not a hex digit, such as `/`, so `unquote` of the whole message text works piece by piece |
| `Paths.Split` | main.py:133 | a path splits into at least one piece, and no piece contains `/` |
| `Paths.Parts` | main.py:147 | every part pathlib keeps is non-empty, is not `.` and has no `/` |
| `Paths.Name` | main.py:134 | `Path(s).name` is a valid file name, or empty exactly when the path has no parts (`NamesOfJoin` and `NameOfJoin` say which part it is) |
| `Paths.ParentName` | main.py:134 | `Path(s).parent.name` is a valid file name, or empty exactly when the path has fewer than two parts; a path with a parent name also has a name |
| `Paths.NameOfJoin` | main.py:134 | appending `/n` to any path makes `n` its last part and its name |
| `Paths.PartsTrailingSlash` | main.py:121 | a trailing `/` changes no part of a path |
| `Paths.NamesOfJoin` | main.py:133-134 | appending `/d/n` to any path makes `d` the parent's name and `n` the name |
| `Artifacts.DirToken` | main.py:121 | the directory token is exactly two lower-case hex digits |
| `Artifacts.DirTokenDecodes` | main.py:121 | the token decodes back to its byte, so there are 256 possible directories, and it is a valid directory name with no `%` |
| `Artifacts.DownloadDir` | main.py:121 | the download directory starts with `./downloads/`, ends with `/`, and as a path its name is the token |
| `Artifacts.QuoteFileName` | main.py:134 | quoting a valid file name gives a valid file name, so the quoted name stays the URL's last part |
| `Artifacts.ArtifactUrl` | main.py:134 | read back as a path, the published URL's name is the quoted stored name and its parent name is the stored parent name; `DeleteUndoesDownload` gives the round trip |
| `Artifacts.DeleteTarget` | main.py:147-148 | the path given to `unlink` starts with `./downloads/`; when the unquoted text has a parent name, the target has the same parent name and name as that text. A `..` parent part is kept, as pathlib keeps it |
| `Artifacts.IsAllowed` | main.py:113 | a sender is allowed iff their username occurs in the allow-list, so a sender without a username never is; `DownloadMedia` states what a refused sender gets |
| `Artifacts.DeleteUndoesDownload` | main.py:120-148 | the delete control maps the published URL back to `./downloads/<token>/<name>`, the file the download wrote, for any host and any file name that is not empty, not `.` and contains no `/` |
| `Artifacts.DeleteExample` | main.py:147-148 | the message `https://host/ab12/My%20File.mp4` leads to `./downloads/ab12/My File.mp4` |
| `Artifacts.DownloadMedia` | main.py:111-142 | a sender who is not on the allow-list, or has no username, produces only the warning log entry. An allowed sender gets the status reply, then a download into `./downloads/<token>/`, then the error text if the download raised (main.py:125-131), nothing more if it returned `None` (then `Path(None)` raises at main.py:133 and the handler stops), or the URL `https://<host>/<parent name>/<quote(name)>` built from the stored path (main.py:133-140) |
| `Artifacts.PublishedUrlDeletesDownload` | main.py:118-148 | the URL the handler publishes leads the delete control back to the directory the download was asked to use, plus the file's name |

## Left out

- `async_e` / `run_cancellable` (main.py:30-56): running work on an executor thread and cancelling it by injecting an exception through the interpreter's C API is concurrency and a foreign call. There is no sequential behaviour to state.
- `webserver` and `heartbeat` (main.py:158-177): a process launch, an HTTP GET and an endless sleep loop, all I/O.
- The messaging client: its setup, `reply`, `edit`, `edit_text`, `download`, `answer`, `delete`, and the handler registration. `DownloadMedia` records `reply`, `download` and the final `edit` as `Effect` values and takes the download's outcome as a parameter: it raised (main.py:125-131), it returned `None`, or it returned the stored path. `edit_text`, `answer` and `message.delete` are not modelled, and neither are the `except: pass` blocks around `edit`, `edit_text`, `unlink` and `message.delete` (main.py:102-103, 129-130, 141-142, 154-155).
- `unlink` and the log calls: only the path given to `unlink` (`DeleteTarget`) and the unauthorized-sender warning are modelled. Of the status texts, only the final one is modelled: the URL carried by `ShowUrl`. The other status texts and log lines are not.
- `time()` is a float clock: it is modelled as an integer tick. The randomness of `randbytes` is not modelled; its byte is a parameter.
- `bot_cfg.py`: it only reads environment variables. The host and the allow-list are parameters.
- RateLimiter.Throttled.Call: it models both `wrap_sync` and `wrap_async` (main.py:66-84), because their decisions and state updates are the same code. The `await` of the async wrapper and the choice between the wrappers by `iscoroutinefunction` are not modelled. A dropped call returns `None`. A fired call returns `Some` of the callback's result, even where Python's callback itself returns `None`.
- RateLimiter.Throttled.Call: calls are sequential. The data race between concurrent callers on the shared timestamp is not modelled.
- RateLimiter.Throttled.Call: the callback is a total function, so it cannot raise. In `wrap_sync` and `wrap_async` the timestamp is stored (main.py:70, 78) before the callback runs (main.py:71, 79), so a callback that raises still uses up the interval and its exception reaches the caller. The model stores the timestamp first as well, but it does not model the exception. For `progress_bar` this makes no difference, because its bare `except` swallows every error (main.py:100-103).
- PercentEncoding.Unquote: it returns the decoded bytes. Python's final UTF-8 decoding of those bytes, with invalid sequences replaced by U+FFFD, is not modelled. Neither is the UTF-8 encoding of `str` before `quote`: names are their UTF-8 bytes throughout.
- Progress.Percentage: the number is modelled, but not its rendering into the status text.
- Paths: the leading `//` root of POSIX paths and other pathlib details that do not affect the last two parts are not modelled.
