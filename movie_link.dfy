/** The movie-link route (`GET /movielink/<title>`): the movie title is cut out of the
    request path, the title's lookup page is fetched, an obfuscated `doit(...)` argument
    is cut out of it and decoded, the embedded player's address is cut out of the decoded
    markup, the player page is fetched, its `sources: [...]` array literal is cut out and
    evaluated, and the 720p, else 360p, else 240p media file is sent back.

    Everything the route hands to other code is a parameter here: the playlist-address
    builder, the decoder, the HTTP fetch and the evaluation of the array literal. What is
    modelled is the string slicing between those calls and the choice of a resolution. */
module MovieLink {
  import opened Wrappers
  import opened Ints
  import opened JsString

  // ---------------------------------------------------------------------------
  // The movie title from the request path
  // ---------------------------------------------------------------------------

  /** The text after the last `/` of the path: `path.substring(path.lastIndexOf('/')).slice(1)`.
      With no `/` at all, `lastIndexOf` answers -1, `substring(-1)` is the whole path and
      `slice(1)` drops its first character. */
  function LastSegment(path: string): (r: string)
    ensures |r| <= |path| && r == path[|path| - |r|..]
  {
    Slice(SubstringFrom(path, LastIndexOf(path, "/")), 1)
  }

  /** The segment cut before its last `?`, when it has one. */
  function CutQuery(segment: string): (r: string)
    ensures r <= segment
  {
    if Includes(segment, "?") then Substring(segment, 0, LastIndexOf(segment, "?")) else segment
  }

  /** The movie title the route looks up (the request path is taken as already
      URI-decoded). */
  function MovieName(path: string): (r: string)
    ensures r <= LastSegment(path)
  {
    CutQuery(LastSegment(path))
  }

  /** The last segment never contains `/`; without any `/` it is the path less its first
      character. */
  lemma LastSegmentHasNoSlash(path: string)
    ensures '/' !in LastSegment(path)
    ensures '/' !in path && path != [] ==> LastSegment(path) == path[1..]
  {
    LastIndexOfChar(path, '/');
    var k := LastIndexOf(path, "/");
    if k == -1 {
      if path != [] {
        assert LastSegment(path) == path[1..];
        assert forall c :: c in path[1..] ==> c in path;
      }
    } else {
      LastSegmentAt(path, k);
    }
  }

  /** When the last `/` is at `k`, the last segment is the text after it. */
  lemma LastSegmentAt(path: string, k: int)
    requires IsLastOf(path, '/', k)
    ensures LastSegment(path) == path[k + 1..]
  {
    LastIndexOfChar(path, '/');
    LastOfUnique(path, '/', k, LastIndexOf(path, "/"));
    assert SubstringFrom(path, k) == path[k..];
    assert path[k..][1..] == path[k + 1..];
  }

  /** Cutting the query keeps a prefix, and all of a segment without `?`. */
  lemma CutQueryPrefix(segment: string)
    ensures CutQuery(segment) <= segment
    ensures '?' !in segment ==> CutQuery(segment) == segment
  {
    IndexOfChar(segment, '?');
    LastIndexOfChar(segment, '?');
  }

  /** When the last `?` of the segment is at `q`, the cut keeps the text before it. */
  lemma CutQueryAt(segment: string, q: int)
    requires IsLastOf(segment, '?', q)
    ensures CutQuery(segment) == segment[..q]
  {
    IndexOfChar(segment, '?');
    LastIndexOfChar(segment, '?');
    LastOfUnique(segment, '?', q, LastIndexOf(segment, "?"));
  }

  /** The movie title never contains `/`. */
  lemma MovieNameHasNoSlash(path: string)
    ensures '/' !in MovieName(path)
  {
    LastSegmentHasNoSlash(path);
    var segment := LastSegment(path);
    CutQueryPrefix(segment);
    forall i | 0 <= i < |MovieName(path)| ensures MovieName(path)[i] != '/' {
      assert MovieName(path)[i] == segment[i];
    }
  }

  /** When the last `/` of the path is at `k`, the movie title is a prefix of the text
      after it, and all of that text when it has no `?`. */
  lemma MovieNameAfterLastSlash(path: string, k: int)
    requires IsLastOf(path, '/', k)
    ensures MovieName(path) <= path[k + 1..]
    ensures '?' !in path[k + 1..] ==> MovieName(path) == path[k + 1..]
  {
    LastSegmentAt(path, k);
    CutQueryPrefix(path[k + 1..]);
  }

  /** When the last `/` of the path is at `k` and the last `?` comes after it, at `q`, the
      movie title is exactly the text between them. */
  lemma MovieNameBeforeLastQuestionMark(path: string, k: int, q: int)
    requires IsLastOf(path, '/', k) && IsLastOf(path, '?', q) && k < q
    ensures MovieName(path) == path[k + 1..q]
  {
    LastSegmentAt(path, k);
    var segment := path[k + 1..];
    var p := q - k - 1;
    assert segment[p] == path[q];
    assert segment[p + 1..] == path[q + 1..];
    CutQueryAt(segment, p);
    assert segment[..p] == path[k + 1..q];
  }

  // ---------------------------------------------------------------------------
  // Slicing between markers
  // ---------------------------------------------------------------------------

  /** `t.substring(0, t.indexOf(c))`: the text before the first `c`, and nothing when
      there is no `c` (then `indexOf` answers -1, which `substring` clamps to 0). */
  lemma BeforeFirstSpec(t: string, c: char)
    ensures c !in t ==> Substring(t, 0, IndexOf(t, [c])) == []
    ensures c in t ==> var q := IndexOf(t, [c]);
                       0 <= q < |t| && t[q] == c && Substring(t, 0, q) == t[..q] && c !in t[..q]
  {
    IndexOfChar(t, c);
  }

  /** `t.substring(0, t.indexOf(c) + 1)`: the text up to and including the first `c`,
      and nothing when there is no `c`. */
  lemma ThroughFirstSpec(t: string, c: char)
    ensures c !in t ==> Substring(t, 0, IndexOf(t, [c]) + 1) == []
    ensures c in t ==> var q := IndexOf(t, [c]);
                       0 <= q < |t| && t[q] == c && Substring(t, 0, q + 1) == t[..q + 1] && c !in t[..q]
  {
    IndexOfChar(t, c);
  }

  /** The argument of the last `doit(` call of the lookup page: the text from six
      characters after the start of the last `doit(` (one past the opening quote) up to
      the first `)` after that point. */
  function DoitArgument(html: string): (r: string)
    ensures ')' !in r
  {
    var first := SubstringFrom(html, LastIndexOf(html, "doit(") + 6);
    BeforeFirstSpec(first, ')');
    Substring(first, 0, IndexOf(first, ")"))
  }

  /** The `doit` argument never contains `)`. It starts six characters into the last
      `doit(` call, or at position 5 when the page has none (`lastIndexOf` answers -1),
      and stops before the first `)` after that point. With no `)` there, or a start
      past the end of the page, it is empty. */
  lemma DoitArgumentSpec(html: string)
    ensures ')' !in DoitArgument(html)
    ensures var from := LastIndexOf(html, "doit(") + 6;
            && (from > |html| ==> DoitArgument(html) == [])
            && (0 <= from <= |html| && ')' !in html[from..] ==> DoitArgument(html) == [])
            && (0 <= from <= |html| && ')' in html[from..] ==>
                  var q := IndexOf(html[from..], ")");
                  0 <= q && from + q < |html| && html[from + q] == ')' &&
                  DoitArgument(html) == html[from..from + q])
  {
    var from := LastIndexOf(html, "doit(") + 6;
    var first := SubstringFrom(html, from);
    BeforeFirstSpec(first, ')');
    if 0 <= from <= |html| {
      assert first == html[from..];
    }
  }

  /** The player address inside the decoded markup: from five characters after the first
      `src="` (just past the quote) to the first `" webkitAllow`. */
  function EmbedUrl(decoded: string): (r: string)
    ensures |r| <= |decoded|
  {
    var startIndex := IndexOf(decoded, "src=\"") + 5;
    var endIndex := IndexOf(decoded, "\" webkitAllow");
    Substring(decoded, startIndex, endIndex)
  }

  /** The address starts just past the first `src="`, or at position 4 when the markup
      has none (`indexOf` answers -1), and ends at the first `" webkitAllow`. With the
      end marker after the start, the address is the text between them. `substring`
      swaps reversed positions, so with the end marker before the start the result is
      the text from the end marker to the start. With no end marker (position -1,
      clamped to 0) it is the markup up to the start. */
  lemma EmbedUrlSpec(decoded: string)
    ensures var a, j := IndexOf(decoded, "src=\"") + 5, IndexOf(decoded, "\" webkitAllow");
            && (j != -1 && a <= j ==> 0 <= a && EmbedUrl(decoded) == decoded[a..j])
            && (j != -1 && j < a ==> a <= |decoded| && EmbedUrl(decoded) == decoded[j..a])
            && (j == -1 ==> EmbedUrl(decoded) == decoded[..Min(a, |decoded|)])
  {
  }

  /** The `sources: [...]` array literal of the player page: from the `[` (nine
      characters after the start of the first `sources: [`) up to and including the first
      `]` after it. */
  function SourcesLiteral(body: string): (r: string)
    ensures r == [] || (r[|r| - 1] == ']' && ']' !in r[..|r| - 1])
  {
    var third := SubstringFrom(body, IndexOf(body, "sources: [") + 9);
    ThroughFirstSpec(third, ']');
    Substring(third, 0, IndexOf(third, "]") + 1)
  }

  /** The literal is empty or ends with its only `]`. It starts nine characters after
      the first `sources: [` (at its `[`), or at position 8 when the page has none
      (`indexOf` answers -1), and runs through the first `]` after that point; with no
      `]` there, or a start past the end of the page, it is empty. */
  lemma SourcesLiteralSpec(body: string)
    ensures var r := SourcesLiteral(body);
            r == [] || (r[|r| - 1] == ']' && ']' !in r[..|r| - 1])
    ensures var from := IndexOf(body, "sources: [") + 9;
            && (from > |body| ==> SourcesLiteral(body) == [])
            && (0 <= from <= |body| && ']' !in body[from..] ==> SourcesLiteral(body) == [])
            && (0 <= from <= |body| && ']' in body[from..] ==>
                  var q := IndexOf(body[from..], "]");
                  0 <= q && from + q < |body| && body[from + q] == ']' &&
                  SourcesLiteral(body) == body[from..from + q + 1])
    ensures var i := IndexOf(body, "sources: [");
            i != -1 && ']' in body[i + 9..] ==>
              var r := SourcesLiteral(body);
              |r| >= 2 && r[0] == '[' && r[|r| - 1] == ']'
  {
    var from := IndexOf(body, "sources: [") + 9;
    var third := SubstringFrom(body, from);
    ThroughFirstSpec(third, ']');
    if ']' in third {
      var q := IndexOf(third, "]");
      assert SourcesLiteral(body) == third[..q + 1];
    }
    if 0 <= from <= |body| {
      assert third == body[from..];
    }
    var i := IndexOf(body, "sources: [");
    if i != -1 {
      assert body[i..i + 10] == "sources: [";
      assert third[0] == body[i..i + 10][9] == '[';
    }
  }

  // ---------------------------------------------------------------------------
  // Choosing a resolution
  // ---------------------------------------------------------------------------

  /** One entry of the evaluated `sources` array: its `label` (a resolution such as
      `720p`; `label` is a reserved word in Dafny) and its `file` address. */
  datatype Source = Source(resolution: string, file: string)

  predicate HasLabel(sources: seq<Source>, resolution: string) {
    exists i :: 0 <= i < |sources| && sources[i].resolution == resolution
  }

  /** `i` is the position of the first source with this label. */
  predicate IsFirstLabelled(sources: seq<Source>, resolution: string, i: int) {
    0 <= i < |sources| && sources[i].resolution == resolution &&
    forall j :: 0 <= j < i ==> sources[j].resolution != resolution
  }

  /** `sources.find(x => x.label == resolution)`: the first source with that label, or
      `undefined` (None). */
  function Find(sources: seq<Source>, resolution: string): (r: Option<Source>)
    ensures r.None? <==> !HasLabel(sources, resolution)
    ensures r.Some? ==> r.value in sources && r.value.resolution == resolution
    ensures forall i :: IsFirstLabelled(sources, resolution, i) ==> r == Some(sources[i])
  {
    if sources == [] then None
    else if sources[0].resolution == resolution then Some(sources[0])
    else
      var r := Find(sources[1..], resolution);
      assert forall i :: IsFirstLabelled(sources, resolution, i) ==> IsFirstLabelled(sources[1..], resolution, i - 1);
      assert HasLabel(sources, resolution) ==> HasLabel(sources[1..], resolution) by {
        if HasLabel(sources, resolution) {
          var i :| 0 <= i < |sources| && sources[i].resolution == resolution;
          assert sources[1..][i - 1].resolution == resolution;
        }
      }
      r
  }

  /** The 720p source if there is one, else the 360p one, else the 240p one, else
      `undefined` (the route then answers `error`). */
  function PickSource(sources: seq<Source>): (r: Option<Source>)
    ensures r.Some? ==> r.value in sources
    ensures r.Some? ==> r.value.resolution == "720p" || r.value.resolution == "360p" || r.value.resolution == "240p"
  {
    var hd := Find(sources, "720p");
    if hd.Some? then hd
    else
      var sd := Find(sources, "360p");
      if sd.Some? then sd
      else Find(sources, "240p")
  }

  /** The first 720p source wins; a 360p source is chosen only when there is no 720p one,
      and a 240p source only when there is neither; nothing is chosen exactly when none
      of the three labels is present. */
  lemma PickSourceSpec(sources: seq<Source>)
    ensures var r := PickSource(sources);
            && (forall i :: IsFirstLabelled(sources, "720p", i) ==> r == Some(sources[i]))
            && (!HasLabel(sources, "720p") ==>
                  forall i :: IsFirstLabelled(sources, "360p", i) ==> r == Some(sources[i]))
            && (!HasLabel(sources, "720p") && !HasLabel(sources, "360p") ==>
                  forall i :: IsFirstLabelled(sources, "240p", i) ==> r == Some(sources[i]))
            && (r.Some? ==> r.value in sources)
            && (r.Some? ==> r.value.resolution == "720p" || r.value.resolution == "360p" || r.value.resolution == "240p")
            && (r.Some? && r.value.resolution == "360p" ==> !HasLabel(sources, "720p"))
            && (r.Some? && r.value.resolution == "240p" ==>
                  !HasLabel(sources, "720p") && !HasLabel(sources, "360p"))
            && (r.None? <==>
                  !HasLabel(sources, "720p") && !HasLabel(sources, "360p") && !HasLabel(sources, "240p"))
  {
    assert "720p"[0] != "360p"[0] && "720p"[0] != "240p"[0] && "360p"[0] != "240p"[0];
    var hd := Find(sources, "720p");
    var sd := Find(sources, "360p");
    var ld := Find(sources, "240p");
  }

  // ---------------------------------------------------------------------------
  // The route
  // ---------------------------------------------------------------------------

  /** The outcome of an HTTP request: an error or a status other than 200, or the body
      of a 200 response. */
  datatype Fetch = Failed | Fetched(body: string)

  /** What the route sends: the text `error`, or the chosen media file's address. */
  datatype Reply = Error | MediaFile(file: string)

  /** The player page is kept unless it is exactly `File was deleted`; the length test
      beside it can never rescue that 16-character body. */
  predicate PlayerPageUsable(body: string) {
    body != "File was deleted" || |body| > 100
  }

  /** The whole route, with the calls into code outside this model as parameters:
      `playlistUrl` stands for the first address the playlist builder returns, `fetch` for
      the HTTP request, `decode` for the `doit` decoder and `evaluate` for the evaluation
      of the array literal. */
  function Respond(path: string, playlistUrl: string -> string, fetch: string -> Fetch,
                   decode: string -> string, evaluate: string -> seq<Source>): Reply
  {
    var page := fetch(playlistUrl(MovieName(path)));
    if page.Failed? then Error
    else
      var player := fetch(EmbedUrl(decode(DoitArgument(page.body))));
      if player.Failed? || !PlayerPageUsable(player.body) then Error
      else
        match PickSource(evaluate(SourcesLiteral(player.body)))
        case None => Error
        case Some(source) => MediaFile(source.file)
  }

  /** The route answers with a media file exactly when both pages were fetched, the
      player page is not the deleted-file notice, and the evaluated sources offer one of
      the three resolutions. The file is then that of the first source carrying the
      preferred resolution, where a lower resolution is chosen only if every higher one
      is missing. */
  lemma RespondSpec(path: string, playlistUrl: string -> string, fetch: string -> Fetch,
                    decode: string -> string, evaluate: string -> seq<Source>)
    ensures var page := fetch(playlistUrl(MovieName(path)));
            var player := if page.Failed? then Failed
                          else fetch(EmbedUrl(decode(DoitArgument(page.body))));
            var sources := if player.Failed? then [] else evaluate(SourcesLiteral(player.body));
            var r := Respond(path, playlistUrl, fetch, decode, evaluate);
            && (r.MediaFile? <==>
                  && page.Fetched? && player.Fetched? && player.body != "File was deleted"
                  && (HasLabel(sources, "720p") || HasLabel(sources, "360p") || HasLabel(sources, "240p")))
            && (r.MediaFile? ==>
                  && (forall i :: IsFirstLabelled(sources, "720p", i) ==> r.file == sources[i].file)
                  && (!HasLabel(sources, "720p") ==>
                        forall i :: IsFirstLabelled(sources, "360p", i) ==> r.file == sources[i].file)
                  && (!HasLabel(sources, "720p") && !HasLabel(sources, "360p") ==>
                        forall i :: IsFirstLabelled(sources, "240p", i) ==> r.file == sources[i].file))
  {
    var page := fetch(playlistUrl(MovieName(path)));
    if page.Fetched? {
      var player := fetch(EmbedUrl(decode(DoitArgument(page.body))));
      if player.Fetched? {
        assert PlayerPageUsable(player.body) <==> player.body != "File was deleted";
        PickSourceSpec(evaluate(SourcesLiteral(player.body)));
      }
    }
  }
}
