/**
 * The Electron main process: where the static export is looked for, how an `app://` request is
 * answered from it, which deep link a second instance forwards, and how the two PNG-saving IPC
 * handlers check their input. The file system is a map from paths to what is stored there;
 * dialogs, writes and URL parsing are outcomes handed in as parameters.
 */
module ElectronMain {
  import opened Wrappers
  import opened JsString
  import opened PosixPath

  /** What `existsSync` finds at a path and what `statSync(..).isDirectory()` says of it. */
  datatype Entry = File | Directory

  type FileSystem = map<string, Entry>

  /** `pickFirstExisting`: the first path that exists, else the first path (none for no paths). */
  method PickFirstExisting(paths: seq<string>, fs: FileSystem) returns (r: Option<string>)
    ensures |paths| == 0 ==> r == None
    ensures |paths| > 0 && (forall k :: 0 <= k < |paths| ==> paths[k] !in fs) ==> r == Some(paths[0])
    ensures forall k :: FirstExistingAt(paths, fs, k) ==> r == Some(paths[k])
  {
    var i := 0;
    while i < |paths|
      invariant 0 <= i <= |paths|
      invariant forall j :: 0 <= j < i ==> paths[j] !in fs
    {
      if paths[i] in fs {
        return Some(paths[i]);
      }
      i := i + 1;
    }
    if |paths| == 0 {
      return None;
    }
    return Some(paths[0]);
  }

  /** `paths[k]` exists and no path before it does. */
  predicate FirstExistingAt(paths: seq<string>, fs: FileSystem, k: int)
  {
    0 <= k < |paths| && paths[k] in fs && forall j :: 0 <= j < k ==> paths[j] !in fs
  }

  /** `path.resolve(dir, '..', 'out')` for an absolute `dir`: the resolved path, no trailing `/`. */
  function OutBeside(dir: string): string
  {
    Dir(Stack(dir + "/.." + "/" + "out"))
  }

  /** `path.join(resources, sub, 'out')` for the packaged layouts. */
  function OutUnder(resources: string, sub: string): string
  {
    Normalize(resources + "/" + sub + "/" + "out")
  }

  /** The candidates `resolveOutDir` tries, in its order. */
  function OutDirCandidates(dir: string, resources: string): (r: seq<string>)
    ensures |r| == 4
  {
    [OutBeside(dir), OutUnder(resources, "app.asar.unpacked"), OutUnder(resources, "app.asar"),
     OutUnder(resources, "app")]
  }

  /**
   * The candidates name the `out` directory beside the one holding the main script, then inside
   * `app.asar.unpacked`, `app.asar` and `app` under the resources directory.
   */
  lemma OutDirLayout(dir: string, resources: string, c: seq<string>)
    requires Absolute(dir) && Absolute(resources) && c == OutDirCandidates(dir, resources)
    ensures Stack(c[0]) == (if Stack(dir) == [] then [] else Stack(dir)[..|Stack(dir)| - 1]) + ["out"]
    ensures Stack(c[1]) == Stack(resources) + ["app.asar.unpacked", "out"]
    ensures Stack(c[2]) == Stack(resources) + ["app.asar", "out"]
    ensures Stack(c[3]) == Stack(resources) + ["app", "out"]
  {
    BesideLayout(dir);
    LayoutNames();
    UnderLayout(resources, "app.asar.unpacked");
    UnderLayout(resources, "app.asar");
    UnderLayout(resources, "app");
  }

  /** The directory names of the packaged layouts are plain names. */
  lemma LayoutNames()
    ensures Name("out") && Name("app") && Name("app.asar") && Name("app.asar.unpacked")
  {
    assert Free("out", '/') by { forall k | 0 <= k < 3 ensures "out"[k] != '/' { } }
    assert Free("app", '/') by { forall k | 0 <= k < 3 ensures "app"[k] != '/' { } }
    assert Free("app.asar", '/') by { forall k | 0 <= k < 8 ensures "app.asar"[k] != '/' { } }
    assert Free("app.asar.unpacked", '/') by { forall k | 0 <= k < 17 ensures "app.asar.unpacked"[k] != '/' { } }
  }

  /** `path.resolve(dir, '..', 'out')` drops the last segment of `dir` and adds `out`. */
  lemma BesideLayout(dir: string)
    requires Absolute(dir)
    ensures Stack(OutBeside(dir)) == (if Stack(dir) == [] then [] else Stack(dir)[..|Stack(dir)| - 1]) + ["out"]
  {
    LayoutNames();
    AppendUp(dir);
    AppendName(dir + "/..", "out");
    StackNames(dir + "/.." + "/" + "out");
    DirStack(Stack(dir + "/.." + "/" + "out"));
  }

  /** A path written from resolved names resolves to those names. */
  lemma DirStack(st: seq<string>)
    requires Names(st)
    ensures Stack(Dir(st)) == st
  {
    if st != [] {
      SplitStack(st);
      assert Dir(st) == "/" + Join(st, '/');
      SplitRooted(Join(st, '/'));
      ResolveNames([], st, false);
      assert Resolve([], [""] + st, false) == Resolve([], st, false);
    } else {
      assert Split("/", '/') == ["", ""];
      ResolveEmpty([], false);
    }
  }

  lemma UnderLayout(resources: string, sub: string)
    requires Absolute(resources) && Name(sub)
    ensures Stack(OutUnder(resources, sub)) == Stack(resources) + [sub, "out"]
  {
    AppendName(resources, sub);
    AppendName(resources + "/" + sub, "out");
    StackOfNormalize(resources + "/" + sub + "/" + "out");
  }

  /** `resolveOutDir`: the first existing candidate, else the one beside the main script. */
  method ResolveOutDir(dir: string, resources: string, fs: FileSystem) returns (r: string)
    ensures r in OutDirCandidates(dir, resources)
    ensures r !in fs ==> r == OutBeside(dir) && forall k :: 0 <= k < 4 ==> OutDirCandidates(dir, resources)[k] !in fs
    ensures OutBeside(dir) in fs ==> r == OutBeside(dir)
    ensures forall k :: FirstExistingAt(OutDirCandidates(dir, resources), fs, k) ==> r == OutDirCandidates(dir, resources)[k]
  {
    var c := OutDirCandidates(dir, resources);
    var picked := PickFirstExisting(c, fs);
    r := picked.value;
  }

  /** An answer to an `app://` request: a file to serve, or a network error code. */
  datatype Response = Serve(path: string) | Fail(code: int)

  /** `net::ERR_FILE_NOT_FOUND`. */
  const FileNotFound := -6
  /** `net::ERR_FAILED`. */
  const Failed := -2

  /** The request paths that name build assets, for which the page is never a stand-in. */
  predicate IsAsset(p: string)
  {
    StartsWith(p, "/_next/") || EndsWith(p, ".js") || EndsWith(p, ".css")
  }

  /** `u.pathname || '/'`, decoded. */
  function RequestPath(decoded: string): string
  {
    if decoded == "" then "/" else decoded
  }

  function IndexFile(dir: string): string
  {
    PathJoin(dir, "index.html")
  }

  /**
   * The answer the protocol handler gives for request path `p`: the root and `/index.html`
   * are the exported page; a path that exists is served, a directory by its `index.html`; next
   * the path with `.html` appended; a missing asset is an error; any other path is the page.
   */
  predicate Routes(out: string, p: string, fs: FileSystem, r: Response)
  {
    var cand := SafeJoin(out, p);
    (p == "/" || p == "/index.html" ==> r == Serve(IndexFile(out)))
    && (p != "/" && p != "/index.html" && cand in fs ==>
          r == Serve(if fs[cand] == Directory then IndexFile(cand) else cand))
    && (p != "/" && p != "/index.html" && cand !in fs && cand + ".html" in fs ==> r == Serve(cand + ".html"))
    && (p != "/" && p != "/index.html" && cand !in fs && cand + ".html" !in fs ==>
          r == if IsAsset(p) then Fail(FileNotFound) else Serve(IndexFile(out)))
  }

  /** The handler's decision tree for a request path. */
  method RoutePath(out: string, p: string, fs: FileSystem) returns (r: Response)
    ensures Routes(out, p, fs, r)
  {
    if p == "/" || p == "/index.html" {
      return Serve(IndexFile(out));
    }
    var cand := SafeJoin(out, p);
    if cand in fs {
      if fs[cand] == Directory {
        return Serve(IndexFile(cand));
      }
      return Serve(cand);
    }
    var htmlTry := cand + ".html";
    if htmlTry in fs {
      return Serve(htmlTry);
    }
    if IsAsset(p) {
      return Fail(FileNotFound);
    }
    return Serve(IndexFile(out));
  }

  /** The handler: a URL that does not parse or decode fails as a whole. */
  method Route(out: string, decoded: Option<string>, fs: FileSystem) returns (r: Response)
    ensures decoded.None? <==> r == Fail(Failed)
    ensures decoded.Some? ==> Routes(out, RequestPath(decoded.value), fs, r)
  {
    if decoded.None? {
      return Fail(Failed);
    }
    r := RoutePath(out, RequestPath(decoded.value), fs);
  }

  /** A missing asset is answered with an error and never with the page. */
  lemma MissingAssetNotFound(out: string, p: string, fs: FileSystem, r: Response)
    requires Routes(out, p, fs, r) && IsAsset(p) && p != "/index.html"
    requires SafeJoin(out, p) !in fs && SafeJoin(out, p) + ".html" !in fs
    ensures r == Fail(FileNotFound) && r != Serve(IndexFile(out))
  {
    assert p != "/";
  }

  /**
   * Whatever is served lies inside the output directory, with one exception: when the output
   * directory itself is missing, a sibling file named after it with `.html` appended may be.
   */
  lemma RoutesInside(out: string, p: string, fs: FileSystem, r: Response)
    requires Absolute(out) && Routes(out, p, fs, r) && r.Serve?
    ensures Inside(Dir(Stack(out)), r.path) || (r.path == Dir(Stack(out)) + ".html" && Dir(Stack(out)) !in fs)
  {
    var d, cand := Dir(Stack(out)), SafeJoin(out, p);
    StackNames(out);
    IndexInside(out, Stack(out), []);
    if p != "/" && p != "/index.html" {
      var ms := Resolve([], Split(Rel(p), '/'), false);
      SafeJoinStack(out, p, ms);
      SafeJoinInside(out, p);
      if cand in fs {
        IndexInside(cand, Stack(out), ms);
      } else {
        InsideExtended(d, cand, ".html");
      }
    }
  }

  /** The `index.html` of a directory whose segments extend `rs` lies inside `Dir(rs)`. */
  lemma IndexInside(c: string, rs: seq<string>, ms: seq<string>)
    requires Absolute(c) && Stack(c) == rs + ms && Names(rs) && Names(ms)
    ensures Inside(Dir(rs), IndexFile(c))
  {
    AppendName(c, "index.html");
    assert Stack(c + "/" + "index.html") == rs + (ms + ["index.html"]);
    InsideOf(rs, ms + ["index.html"], c + "/" + "index.html");
  }

  /** The scheme a deep link starts with. */
  const DeepLinkScheme := "onepager://"

  /** `argv[k]` is a deep link and no argument before it is. */
  predicate FirstDeepLinkAt(argv: seq<string>, k: int)
  {
    0 <= k < |argv| && StartsWith(argv[k], DeepLinkScheme) && forall j :: 0 <= j < k ==> !StartsWith(argv[j], DeepLinkScheme)
  }

  /** `argv.find(a => a.startsWith('onepager://'))`. */
  function FirstDeepLink(argv: seq<string>): (r: Option<string>)
    ensures r.None? <==> forall k :: 0 <= k < |argv| ==> !StartsWith(argv[k], DeepLinkScheme)
    ensures r.Some? ==> exists k :: FirstDeepLinkAt(argv, k) && argv[k] == r.value
  {
    if |argv| == 0 then None
    else if StartsWith(argv[0], DeepLinkScheme) then Some(argv[0])
    else
      var r := FirstDeepLink(argv[1..]);
      if r.Some? then
        ghost var k :| FirstDeepLinkAt(argv[1..], k) && argv[1..][k] == r.value;
        assert FirstDeepLinkAt(argv, k + 1) && argv[k + 1] == r.value;
        r
      else r
  }

  /** What the `second-instance` handler does to the window it finds. */
  datatype Raise = Raise(restore: bool, focus: bool, send: Option<string>)

  /**
   * The `second-instance` handler: without a window nothing happens; otherwise a minimized
   * window is restored, the window is focused and the first deep link, if any, is sent to it.
   */
  function SecondInstance(hasWindow: bool, minimized: bool, argv: seq<string>): (r: Raise)
    ensures !hasWindow ==> r == Raise(false, false, None)
    ensures hasWindow ==> r.focus && r.restore == minimized
    ensures r.send.Some? ==> hasWindow && StartsWith(r.send.value, DeepLinkScheme) && r.send.value in argv
    ensures hasWindow && (exists k :: 0 <= k < |argv| && StartsWith(argv[k], DeepLinkScheme)) ==> r.send.Some?
  {
    if hasWindow then Raise(minimized, true, FirstDeepLink(argv)) else Raise(false, false, None)
  }

  /** The data URL prefix of a base64-encoded PNG (RFC 2397, section 3). */
  const PngPrefix := "data:image/png;base64,"

  /** `dataUrl.split(',')[1]`. */
  function Payload(dataUrl: string): string
    requires StartsWith(dataUrl, PngPrefix)
  {
    PayloadSplit(dataUrl);
    Split(dataUrl, ',')[1]
  }

  lemma PayloadSplit(dataUrl: string)
    requires StartsWith(dataUrl, PngPrefix)
    ensures Split(dataUrl, ',') == ["data:image/png;base64"] + Split(dataUrl[|PngPrefix|..], ',')
  {
    assert dataUrl == "data:image/png;base64" + [','] + dataUrl[|PngPrefix|..];
    SplitWithPrefix("data:image/png;base64", dataUrl[|PngPrefix|..], ',');
  }

  /** The payload is the text after the prefix, up to the first comma; base64 text comes back whole. */
  lemma PayloadOf(b: string)
    ensures StartsWith(PngPrefix + b, PngPrefix)
    ensures Payload(PngPrefix + b) == Split(b, ',')[0]
    ensures Free(b, ',') ==> Payload(PngPrefix + b) == b
  {
    assert (PngPrefix + b)[..|PngPrefix|] == PngPrefix;
    PayloadSplit(PngPrefix + b);
    assert (PngPrefix + b)[|PngPrefix|..] == b;
    if Free(b, ',') {
      SplitFree(b, ',');
    }
  }

  /** What the save dialog returns. */
  datatype SaveDialog = SaveDialog(canceled: bool, filePath: Option<string>)

  /** What is written: the base64 text of a data URL, or the captured page. */
  datatype Image = Base64(text: string) | CapturedPage

  /** The answer of an IPC save handler. */
  datatype SaveResult = Saved(path: string, image: Image) | Canceled | Error(message: string)

  const InvalidDataUrl := "Invalid dataURL"

  /** The dialog's proposed file name: `suggestedName || 'mars-onepager.png'`. */
  function DefaultSaveName(suggested: Option<string>): (r: string)
    ensures |r| > 0
    ensures suggested.Some? && suggested.value != "" ==> r == suggested.value
  {
    if suggested.None? || suggested.value == "" then "mars-onepager.png" else suggested.value
  }

  /** A dialog that was canceled or gave no path. */
  predicate Dismissed(dialog: SaveDialog)
  {
    dialog.canceled || dialog.filePath.None? || dialog.filePath.value == ""
  }

  /**
   * `save-png`: a missing data URL, or one that is not a base64 PNG, is refused before any
   * dialog; a dismissed dialog cancels; otherwise the payload is written to the chosen path, and
   * a failing write reports its message.
   */
  function SavePng(dataUrl: Option<string>, dialog: SaveDialog, writeError: Option<string>): (r: SaveResult)
    ensures dataUrl.None? || !StartsWith(dataUrl.value, PngPrefix) ==> r == Error(InvalidDataUrl)
    ensures dataUrl.Some? && StartsWith(dataUrl.value, PngPrefix) ==>
      (Dismissed(dialog) <==> r == Canceled)
      && (!Dismissed(dialog) && writeError.None? ==> r == Saved(dialog.filePath.value, Base64(Payload(dataUrl.value))))
      && (!Dismissed(dialog) && writeError.Some? ==> r == Error(writeError.value))
  {
    if dataUrl.None? || !StartsWith(dataUrl.value, PngPrefix) then Error(InvalidDataUrl)
    else if Dismissed(dialog) then Canceled
    else if writeError.Some? then Error(writeError.value)
    else Saved(dialog.filePath.value, Base64(Payload(dataUrl.value)))
  }

  /** A saved PNG data URL carries exactly the base64 text it was made from. */
  lemma SavePngWritesPayload(b: string, dialog: SaveDialog)
    requires Free(b, ',') && !Dismissed(dialog)
    ensures SavePng(Some(PngPrefix + b), dialog, None) == Saved(dialog.filePath.value, Base64(b))
  {
    PayloadOf(b);
  }

  /**
   * `export-fullpage-png`: without a window it fails with "No window"; a dismissed dialog
   * cancels; otherwise the captured page is written to the chosen path, and a failing write
   * reports its message.
   */
  function ExportFullPagePng(hasWindow: bool, dialog: SaveDialog, writeError: Option<string>): (r: SaveResult)
    ensures !hasWindow ==> r == Error("No window")
    ensures hasWindow ==> (Dismissed(dialog) <==> r == Canceled)
    ensures hasWindow && !Dismissed(dialog) && writeError.None? ==> r == Saved(dialog.filePath.value, CapturedPage)
    ensures hasWindow && !Dismissed(dialog) && writeError.Some? ==> r == Error(writeError.value)
    ensures r.Saved? ==> hasWindow && r.image == CapturedPage && Some(r.path) == dialog.filePath && writeError.None?
  {
    if !hasWindow then Error("No window")
    else if Dismissed(dialog) then Canceled
    else if writeError.Some? then Error(writeError.value)
    else Saved(dialog.filePath.value, CapturedPage)
  }
}
