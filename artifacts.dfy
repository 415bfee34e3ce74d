/**
 * Where a download is stored, the URL published for it, and the path the
 * delete control recovers from that URL; plus the allow-list gate of the
 * media handler.
 *
 * Text is handled as its UTF-8 bytes, as `quote` does.
 */
module Artifacts {
  import opened Wrappers
  import opened Bytes
  import opened PercentEncoding
  import opened Paths

  /** A lower-case hexadecimal digit, as `bytes.hex()` writes it. */
  predicate IsLowerHexDigit(c: byte)
  {
    (0x30 <= c <= 0x39) || (0x61 <= c <= 0x66)
  }

  function LowerHexDigit(n: int): (c: byte)
    requires 0 <= n < 16
    ensures IsLowerHexDigit(c) && IsHexDigit(c) && HexValue(c) == n
  {
    if n < 10 then (0x30 + n) as byte else (0x61 + n - 10) as byte
  }

  /** The directory token `randbytes(1).hex()` for the random byte `b`. */
  function DirToken(b: byte): (token: seq<byte>)
    ensures |token| == 2 && IsLowerHexDigit(token[0]) && IsLowerHexDigit(token[1])
  {
    [LowerHexDigit(b as int / 16), LowerHexDigit(b as int % 16)]
  }

  /** The token names the byte it came from (so there are exactly 256
      directories), and is a usable directory name. */
  lemma DirTokenDecodes(b: byte)
    ensures var token := DirToken(b);
            IsHexDigit(token[0]) && IsHexDigit(token[1])
            && HexValue(token[0]) * 16 + HexValue(token[1]) == b as int
    ensures IsFileName(DirToken(b)) && PercentSign !in DirToken(b)
  {
  }

  /** `./downloads`. */
  const DownloadsPath: seq<byte> := [0x2E, 0x2F, 0x64, 0x6F, 0x77, 0x6E, 0x6C, 0x6F, 0x61, 0x64, 0x73]

  /** `./downloads/`. */
  const DownloadsRoot: seq<byte> := DownloadsPath + [Slash]

  /** `https://`. */
  const HttpsScheme: seq<byte> := [0x68, 0x74, 0x74, 0x70, 0x73, 0x3A, 0x2F, 0x2F]

  /** The `file_name` argument of the download: `./downloads/<token>/`. It
      lies under `./downloads/`, ends with `/` so the client keeps the file's
      own name, and as a path it names the token. */
  function DownloadDir(token: seq<byte>): (dir: seq<byte>)
    ensures |DownloadsRoot| < |dir| && dir[..|DownloadsRoot|] == DownloadsRoot && dir[|dir| - 1] == Slash
    ensures IsFileName(token) ==> Name(dir) == token
  {
    var dir := DownloadsRoot + token + [Slash];
    if IsFileName(token) then
      assert dir == DownloadsPath + [Slash] + token + [Slash];
      PartsTrailingSlash(DownloadsPath + [Slash] + token);
      NameOfJoin(DownloadsPath, token);
      dir
    else
      dir
  }

  /** A quoted file name is still a file name. */
  lemma QuoteFileName(n: seq<byte>)
    requires IsFileName(n)
    ensures IsFileName(Quote(n))
  {
    if Quote(n) == [Dot] {
      assert Quote([Dot]) == [Dot] by {
        assert [Dot][1..] == [];
      }
      QuoteInjective(n, [Dot]);
    }
  }

  /** The URL published for the file stored at `stored`:
      `https://<host>/<parent name>/<quote(name)>`. Read back as a path, its
      name is the quoted file name and its parent name the stored one. */
  function ArtifactUrl(host: seq<byte>, stored: seq<byte>): (url: seq<byte>)
    ensures Name(stored) != [] ==> Name(url) == Quote(Name(stored))
    ensures ParentName(stored) != [] ==> ParentName(url) == ParentName(stored)
  {
    var head := HttpsScheme + host;
    var url := head + [Slash] + ParentName(stored) + [Slash] + Quote(Name(stored));
    if Name(stored) != [] then
      QuoteFileName(Name(stored));
      NameOfJoin(head + [Slash] + ParentName(stored), Quote(Name(stored)));
      if ParentName(stored) != [] then
        NamesOfJoin(head, ParentName(stored), Quote(Name(stored)));
        url
      else
        url
    else
      url
  }

  /** The path the delete control passes to `unlink` for a message whose
      text is `text`: unquote the whole text, read it as a path, and rebuild
      `./downloads/<parent name>/<name>`. */
  function DeleteTarget(text: seq<byte>): (target: seq<byte>)
    ensures |DownloadsRoot| < |target| && target[..|DownloadsRoot|] == DownloadsRoot
    ensures var path := Unquote(text);
            ParentName(path) != [] ==>
              ParentName(target) == ParentName(path) && Name(target) == Name(path)
  {
    var path := Unquote(text);
    var target := DownloadsRoot + ParentName(path) + [Slash] + Name(path);
    if ParentName(path) != [] then
      assert target == DownloadsPath + [Slash] + ParentName(path) + [Slash] + Name(path);
      NamesOfJoin(DownloadsPath, ParentName(path), Name(path));
      target
    else
      target
  }

  /** `unquote` keeps a `/` and passes over it. */
  lemma UnquoteAfterSlash(rest: seq<byte>)
    ensures Unquote([Slash] + rest) == [Slash] + Unquote(rest)
  {
  }

  /** `unquote` of `<head>/<token>/<tail>` works part by part when the
      token holds no `%`. */
  lemma UnquoteAcrossSlashes(head: seq<byte>, token: seq<byte>, tail: seq<byte>)
    requires PercentSign !in token
    ensures Unquote(head + [Slash] + token + [Slash] + tail)
         == Unquote(head) + [Slash] + token + [Slash] + Unquote(tail)
  {
    var inner := token + ([Slash] + tail);
    calc {
      Unquote(inner);
      { UnquoteAppend(token, [Slash] + tail); }
      Unquote(token) + Unquote([Slash] + tail);
      { UnquoteAfterSlash(tail); }
      token + ([Slash] + Unquote(tail));
    }
    calc {
      Unquote(head + [Slash] + token + [Slash] + tail);
      { assert head + [Slash] + token + [Slash] + tail == head + ([Slash] + inner); }
      Unquote(head + ([Slash] + inner));
      { UnquoteAppend(head, [Slash] + inner); }
      Unquote(head) + Unquote([Slash] + inner);
      { UnquoteAfterSlash(inner); }
      Unquote(head) + [Slash] + token + [Slash] + Unquote(tail);
    }
  }

  /** Round trip: the delete control removes exactly the file the download
      wrote. The download stores `name` under `<root>/<token>/`, wherever the
      client library roots `./downloads`; the URL built from that path leads
      back to `./downloads/<token>/<name>`. */
  lemma DeleteUndoesDownload(host: seq<byte>, root: seq<byte>, b: byte, name: seq<byte>)
    requires IsFileName(name)
    ensures var token := DirToken(b);
            DeleteTarget(ArtifactUrl(host, root + [Slash] + token + [Slash] + name)) == DownloadDir(token) + name
  {
    var token := DirToken(b);
    DirTokenDecodes(b);
    NamesOfJoin(root, token, name);
    var head := HttpsScheme + host;
    var url := head + [Slash] + token + [Slash] + Quote(name);
    assert ArtifactUrl(host, root + [Slash] + token + [Slash] + name) == url;
    UnquoteAcrossSlashes(head, token, Quote(name));
    UnquoteQuote(name);
    NamesOfJoin(Unquote(head), token, name);
  }

  /** The delete control on a concrete message. */
  lemma DeleteExample()
    ensures DeleteTarget(FromAscii("https://host/ab12/My%20File.mp4"))
         == FromAscii("./downloads/ab12/My File.mp4")
  {
    var head := FromAscii("https://host");
    var dir := FromAscii("ab12");
    var name := FromAscii("My File.mp4");
    var q := FromAscii("My%20File.mp4");
    ExampleText();
    ExampleTarget();
    ExampleNames();
    ExampleUnquote();
    UnquoteAcrossSlashes(head, dir, q);
    NamesOfJoin(Unquote(head), dir, name);
  }

  lemma ExampleText()
    ensures FromAscii("https://host/ab12/My%20File.mp4")
         == FromAscii("https://host") + [Slash] + FromAscii("ab12") + [Slash] + FromAscii("My%20File.mp4")
  {
  }

  lemma ExampleTarget()
    ensures FromAscii("./downloads/ab12/My File.mp4")
         == DownloadsRoot + FromAscii("ab12") + [Slash] + FromAscii("My File.mp4")
  {
  }

  lemma ExampleNames()
    ensures IsFileName(FromAscii("ab12")) && PercentSign !in FromAscii("ab12")
    ensures IsFileName(FromAscii("My File.mp4"))
  {
  }

  lemma ExampleUnquote()
    ensures Unquote(FromAscii("My%20File.mp4")) == FromAscii("My File.mp4")
  {
    var my: seq<byte> := [0x4D, 0x79];
    var file: seq<byte> := [0x46, 0x69, 0x6C, 0x65, 0x2E, 0x6D, 0x70, 0x34];
    var escaped: seq<byte> := [PercentSign, 0x32, 0x30] + file;
    assert FromAscii("My%20File.mp4") == my + escaped;
    assert FromAscii("My File.mp4") == my + ([0x20] + file);
    assert HexValue(0x32) == 2 && HexValue(0x30) == 0;
    UnquoteEscape(0x32, 0x30, file);
    assert Unquote(escaped) == [0x20] + file;
    UnquoteAppend(my, escaped);
  }

  /** What the media handler does, in order. */
  datatype Effect =
    | WarnUnauthorized(username: Option<string>)   // the log line for a refused sender
    | ReplyStatus                                   // the "0%" status message
    | Fetch(into: seq<byte>)                        // the download, into this directory
    | ShowError                                     // status replaced by the error text
    | ShowUrl(url: seq<byte>)                       // status replaced by the URL

  /** The sender is on the allow-list: exact match of the username. A sender
      without a username (`None`) is never on it. */
  predicate IsAllowed(username: Option<string>, allowList: seq<string>): (allowed: bool)
    ensures allowed ==> username.Some?
    ensures allowed <==> exists i :: 0 <= i < |allowList| && username == Some(allowList[i])
  {
    username.Some? && username.value in allowList
  }

  /** How the client's `download` call ends. */
  datatype Download =
    | Raised                  // the call raised: the `except` at main.py:125-131 runs
    | NoFile                  // the call returned `None` (a failed or stopped transfer)
    | Stored(path: seq<byte>) // the call returned the path of the stored file

  /** The media handler: `username` is the sender's, `b` the random byte for
      the directory, `download` how the download ended. A download that
      returns `None` makes `Path(None)` raise outside any `try`, so the
      handler stops right after the download and the status is left as it
      was. */
  function DownloadMedia(username: Option<string>, allowList: seq<string>, host: seq<byte>,
                         b: byte, download: Download): (effects: seq<Effect>)
    ensures !IsAllowed(username, allowList) <==> forall e :: e in effects ==> e.WarnUnauthorized?
    ensures !IsAllowed(username, allowList) ==> effects == [WarnUnauthorized(username)]
    ensures IsAllowed(username, allowList) ==>
              2 <= |effects| <= 3 && effects[0] == ReplyStatus && effects[1] == Fetch(DownloadDir(DirToken(b)))
    ensures IsAllowed(username, allowList) ==> (|effects| == 2 <==> download.NoFile?)
    ensures IsAllowed(username, allowList) ==> (ShowError in effects <==> download.Raised?)
    ensures IsAllowed(username, allowList) && download.Stored? ==>
              |effects| == 3 && effects[2] == ShowUrl(ArtifactUrl(host, download.path))
  {
    if !IsAllowed(username, allowList) then [WarnUnauthorized(username)]
    else
      var started := [ReplyStatus, Fetch(DownloadDir(DirToken(b)))];
      var effects := match download
        case Raised => started + [ShowError]
        case NoFile => started
        case Stored(stored) => started + [ShowUrl(ArtifactUrl(host, stored))];
      assert effects[0] in effects;
      effects
  }

  /** The URL the handler publishes leads the delete control back to the
      file downloaded into the directory the handler asked for. */
  lemma PublishedUrlDeletesDownload(username: Option<string>, allowList: seq<string>, host: seq<byte>,
                                    b: byte, root: seq<byte>, name: seq<byte>)
    requires IsAllowed(username, allowList) && IsFileName(name)
    ensures var effects := DownloadMedia(username, allowList, host, b,
                                         Stored(root + [Slash] + DirToken(b) + [Slash] + name));
            effects[2].ShowUrl? && effects[1].Fetch?
            && DeleteTarget(effects[2].url) == effects[1].into + name
  {
    DeleteUndoesDownload(host, root, b, name);
  }
}
