/**
 The path derivation of main.go, each expression lifted out of `main` as a
 function: the `-l` check, the local cache file name, the storage key and the
 public URL that is logged. The URL is taken already parsed: its host and
 its path are parameters.
 */
module Remote2Oss {
  import opened GoStrings
  import opened GoPath
  import opened Sanitize

  datatype Result<T> = Ok(value: T) | Err(error: string)

  /** The configuration file's record. Only `workspace` and `ossPublicUrl`
      take part in the path derivation; the rest goes to the storage client. */
  datatype Options = Options(
    workspace: string,
    ossPublicUrl: string,
    ossEndpoint: string,
    ossAccessKeyId: string,
    ossAccessKeySecret: string,
    ossBucket: string)

  /** The names derived for one transfer. */
  datatype Transfer = Transfer(location: string, filename: string, key: string, remote: string)

  const MissingLocation := "missing argument '-l'"

  // ---------------------------------------------------------------------
  // The -l argument

  /** The `-l` value is trimmed of white space; nothing left is an error. */
  function CheckLocation(location: string): (r: Result<string>)
    ensures r.Err? <==> AllSpace(location)
    ensures r.Err? ==> r.error == MissingLocation
    ensures r.Ok? ==> r.value != [] && !IsSpace(r.value[0]) && !IsSpace(r.value[|r.value| - 1])
    ensures r.Ok? ==> r.value == TrimSpace(location)
  {
    TrimSpaceEmptyIff(location);
    var l := TrimSpace(location);
    if l == [] then Err(MissingLocation) else Ok(l)
  }

  /** Checking an accepted value again accepts it unchanged. */
  lemma CheckLocationStable(location: string)
    requires CheckLocation(location).Ok?
    ensures CheckLocation(CheckLocation(location).value) == CheckLocation(location)
  {
    TrimSpaceIdempotent(location);
  }

  // ---------------------------------------------------------------------
  // The local cache file

  /** The cache file for a URL path: the workspace joined with the sanitized
      last element of the path. */
  function LocalFilename(workspace: string, urlPath: string): (r: string)
    ensures r != []
  {
    SanitizeDotNames(Base(urlPath));
    Join(workspace, SanitizePath(Base(urlPath)))
  }

  /** The element the file name ends with: `.` for an empty path, and a
      slash only when the path is made of slashes alone. */
  lemma BaseSegment(urlPath: string)
    ensures urlPath == [] ==> SanitizePath(Base(urlPath)) == "."
    ensures '/' in SanitizePath(Base(urlPath)) <==> urlPath != [] && AllSlash(urlPath)
  {
    var b := Base(urlPath);
    SanitizeSlashFree(b);
    SanitizeDotNames(b);
    assert urlPath != [] && AllSlash(urlPath) ==> b[0] == '/';
  }

  /** A path with no named last element (empty, slashes only, or ending in a
      `.` element) names the cleaned workspace itself, or, with no workspace,
      `.` or `/`. */
  lemma LocalFilenameNoElement(workspace: string, urlPath: string)
    requires AllSlash(urlPath) || Base(urlPath) == "."
    ensures Base(urlPath) == "." || Base(urlPath) == "/"
    ensures LocalFilename(workspace, urlPath) == if workspace == [] then Base(urlPath) else Clean(workspace)
  {
    var b := Base(urlPath);
    if b == "." {
      SanitizeFixesSafe(".");
    } else {
      SanitizeFixesSafe("/");
    }
    JoinNoElement(workspace, b);
  }

  lemma JoinNoElement(workspace: string, b: string)
    requires b == "." || b == "/"
    ensures Join(workspace, b) == if workspace == [] then b else Clean(workspace)
  {
    if workspace == [] {
      CleanDotAndRoot();
    } else if b == "." {
      CleanAppendDot(workspace, ".");
    } else {
      CleanAppendDoubleSlash(workspace);
    }
  }

  /** When the path ends in a named element, the cache file is that element,
      sanitized, inside the cleaned workspace. */
  lemma LocalFilenameInWorkspace(workspace: string, urlPath: string)
    requires !AllSlash(urlPath) && Base(urlPath) != "." && Base(urlPath) != ".."
    ensures IsNamed(SanitizePath(Base(urlPath))) && SanitizePath(Base(urlPath)) != ".."
    ensures LocalFilename(workspace, urlPath) == Extend(Clean(workspace), SanitizePath(Base(urlPath)))
  {
    var b := Base(urlPath);
    var s := SanitizePath(b);
    SanitizeSlashFree(b);
    SanitizeDotNames(b);
    if workspace == [] {
      CleanNamed(s);
    } else {
      CleanAppendNamed(workspace, s);
    }
  }

  /** A path whose last element is `..` names the workspace's parent. */
  lemma LocalFilenameDotDot(workspace: string, urlPath: string)
    requires Base(urlPath) == ".."
    ensures LocalFilename(workspace, urlPath) == Join(workspace, "..")
  {
    var b := Base(urlPath);
    SanitizeFixesSafe("..");
    assert SanitizePath(b) == "..";
  }

  // ---------------------------------------------------------------------
  // The storage key

  /** The object key: the URL's host, as it is, joined with the whole path,
      sanitized. */
  function StorageKey(host: string, urlPath: string): (r: string)
    ensures r == [] <==> host == [] && urlPath == []
  {
    SanitizeDotNames(urlPath);
    Join(host, SanitizePath(urlPath))
  }

  /** Each element of a list, sanitized. */
  function SanitizeElems(es: seq<string>): (r: seq<string>)
    ensures |r| == |es|
  {
    seq(|es|, k requires 0 <= k < |es| => SanitizePath(es[k]))
  }

  /** Sanitizing commutes with cutting a path into its elements. */
  lemma {:induction false} SplitSanitize(p: string)
    ensures Split(SanitizePath(p)) == SanitizeElems(Split(p))
    decreases |p|
  {
    var s := SanitizePath(p);
    var k := LastIndex(p, '/');
    LastIndexSanitize(p);
    SplitAtLast(p);
    SplitAtLast(s);
    if k < 0 {
      assert [p][..0] == [];
    } else {
      var init, last := p[..k], p[k + 1..];
      SanitizePrefix(p, k);
      SanitizeSuffix(p, k + 1);
      assert Split(s) == Split(SanitizePath(init)) + [SanitizePath(last)];
      SplitSanitize(init);
      SanitizeElemsSnoc(Split(init), last);
      assert Split(p) == Split(init) + [last];
    }
  }

  lemma SanitizeElemsSnoc(es: seq<string>, e: string)
    ensures SanitizeElems(es + [e]) == SanitizeElems(es) + [SanitizePath(e)]
  {
    assert (es + [e])[..|es|] == es;
  }

  lemma LastIndexSanitize(p: string)
    ensures LastIndex(SanitizePath(p), '/') == LastIndex(p, '/')
  {
    var s := SanitizePath(p);
    SanitizeKeepsSeparators(p);
    var k := LastIndex(p, '/');
    var ks := LastIndex(s, '/');
    if k >= 0 {
      assert s[k] == '/';
    }
    if ks >= 0 {
      assert p[ks] == '/';
    }
  }

  /** With a named host and a path that has no `..` element, the key is the
      host, verbatim (neither sanitized nor lower-cased), followed by the
      named elements of the sanitized path. */
  lemma StorageKeyUnderHost(host: string, urlPath: string)
    requires IsNamed(host) && host != ".."
    requires forall k :: 0 <= k < |Split(urlPath)| ==> Split(urlPath)[k] != ".."
    ensures var ns := NamedElems(Split(SanitizePath(urlPath)));
      StorageKey(host, urlPath) == if ns == [] then host else host + "/" + JoinElems(ns)
    ensures host <= StorageKey(host, urlPath)
  {
    var s := SanitizePath(urlPath);
    SplitSanitize(urlPath);
    forall k | 0 <= k < |Split(s)| ensures Split(s)[k] != ".." {
      SanitizeDotNames(Split(urlPath)[k]);
    }
    CleanUnderHead(host, s);
  }

  /** The key never holds a doubled slash, ends in a slash only when it is the
      root, and starts with one exactly when the host does (or, when there is
      no host, the path does). */
  lemma StorageKeyShape(host: string, urlPath: string)
    ensures NoDoubleSlash(StorageKey(host, urlPath))
    ensures StorageKey(host, urlPath) != [] ==>
      && (StorageKey(host, urlPath)[|StorageKey(host, urlPath)| - 1] == '/' ==> StorageKey(host, urlPath) == "/")
      && (StorageKey(host, urlPath)[0] == '/' <==> if host == [] then urlPath[0] == '/' else host[0] == '/')
  {
    var s := SanitizePath(urlPath);
    SanitizeKeepsSeparators(urlPath);
    if host == [] && s != [] {
      CleanShape(s);
    } else if host != [] {
      CleanShape(host + "/" + s);
      assert (host + "/" + s)[0] == host[0];
    }
  }

  // ---------------------------------------------------------------------
  // The public URL

  /** The URL logged for the uploaded object: the prefix with at most one
      trailing slash removed, one slash, and the key with at most one leading
      slash removed. */
  function PublicUrl(prefix: string, key: string): (r: string)
    ensures var n := |TrimSuffix(prefix, "/")|;
      && n < |r| && r[n] == '/'
      && (EndsWith(prefix, "/") ==> prefix == r[..n] + "/")
      && (!EndsWith(prefix, "/") ==> prefix == r[..n])
      && ("/" <= key ==> key == "/" + r[n + 1..])
      && (!("/" <= key) ==> key == r[n + 1..])
  {
    var p := TrimSuffix(prefix, "/");
    var k := TrimPrefix(key, "/");
    var r := p + "/" + k;
    assert r[..|p|] == p && r[|p| + 1..] == k;
    r
  }

  /** Unless the prefix ends in `//` or the key starts with `//`, exactly one
      slash stands between the prefix's text and the key's. */
  lemma PublicUrlOneSeparator(prefix: string, key: string)
    requires !EndsWith(prefix, "//") && !("//" <= key)
    ensures var r := PublicUrl(prefix, key); var n := |TrimSuffix(prefix, "/")|;
      && r[n] == '/'
      && (n == 0 || r[n - 1] != '/')
      && (n + 1 == |r| || r[n + 1] != '/')
  {
    var p := TrimSuffix(prefix, "/");
    var k := TrimPrefix(key, "/");
    var r := PublicUrl(prefix, key);
    var n := |p|;
    assert r == p + "/" + k;
    if n > 0 {
      assert r[n - 1] == p[n - 1];
      if EndsWith(prefix, "/") {
        assert prefix == p + "/";
        assert prefix[|prefix| - 2..] == [p[n - 1], '/'];
      } else {
        assert prefix == p;
      }
    }
    if n + 1 < |r| {
      assert r[n + 1] == k[0];
      if "/" <= key {
        assert key == "/" + k;
        assert key[..2] == ['/', k[0]];
      } else {
        assert key == k;
      }
    }
  }

  /** A prefix ending in `//` loses only one slash, so two stand at the
      joint, whatever the key. */
  lemma PublicUrlDoubleSlashPrefix(prefix: string, key: string)
    requires EndsWith(prefix, "//")
    ensures var r := PublicUrl(prefix, key); var n := |TrimSuffix(prefix, "/")|;
      && 0 < n < |r|
      && r[n - 1] == '/' && r[n] == '/'
  {
    var p := TrimSuffix(prefix, "/");
    assert prefix[|prefix| - 1..] == [prefix[|prefix| - 1]];
    assert prefix[|prefix| - 2] == '/' && prefix[|prefix| - 1] == '/';
    assert EndsWith(prefix, "/");
    assert p == prefix[..|prefix| - 1];
    assert PublicUrl(prefix, key)[|p| - 1] == p[|p| - 1];
  }

  // ---------------------------------------------------------------------
  // The whole derivation

  /** The names main.go derives for one run, in its order: the `-l` check,
      the cache file, the key, the public URL. `host` and `urlPath` are the
      parts of the parsed URL. */
  function Derive(opts: Options, location: string, host: string, urlPath: string): (r: Result<Transfer>)
    ensures r.Err? <==> AllSpace(location)
    ensures r.Err? ==> r.error == MissingLocation
  {
    match CheckLocation(location)
    case Err(e) => Err(e)
    case Ok(l) =>
      var filename := LocalFilename(opts.workspace, urlPath);
      var key := StorageKey(host, urlPath);
      Ok(Transfer(l, filename, key, PublicUrl(opts.ossPublicUrl, key)))
  }

  /** End to end, with a named host: the accepted `-l` value is the trimmed
      argument, the cache file and the key are derived from the URL path, and
      the public URL is the prefix without one trailing slash, a slash, and
      the key as it is. */
  lemma DeriveEndToEnd(opts: Options, location: string, host: string, urlPath: string)
    requires !AllSpace(location)
    requires IsNamed(host)
    ensures var key := StorageKey(host, urlPath);
      Derive(opts, location, host, urlPath) == Ok(Transfer(
        TrimSpace(location),
        LocalFilename(opts.workspace, urlPath),
        key,
        TrimSuffix(opts.ossPublicUrl, "/") + "/" + key))
  {
    var key := StorageKey(host, urlPath);
    KeyUnderNamedHostNotRooted(host, urlPath);
    assert TrimPrefix(key, "/") == key;
  }

  /** With a named host and a prefix that does not end in `//`, exactly one
      slash stands between the prefix's text and the key in the public URL. */
  lemma PublicUrlUnderNamedHost(prefix: string, host: string, urlPath: string)
    requires IsNamed(host)
    requires !EndsWith(prefix, "//")
    ensures var r := PublicUrl(prefix, StorageKey(host, urlPath)); var n := |TrimSuffix(prefix, "/")|;
      && n + 1 < |r| && r[n] == '/'
      && (n == 0 || r[n - 1] != '/')
      && r[n + 1] != '/'
  {
    var key := StorageKey(host, urlPath);
    KeyUnderNamedHostNotRooted(host, urlPath);
    PublicUrlOneSeparator(prefix, key);
    assert TrimPrefix(key, "/") == key;
  }

  /** Under a named host the key starts with neither `/` nor `//`. */
  lemma KeyUnderNamedHostNotRooted(host: string, urlPath: string)
    requires IsNamed(host)
    ensures StorageKey(host, urlPath) != [] && StorageKey(host, urlPath)[0] != '/'
    ensures !("/" <= StorageKey(host, urlPath)) && !("//" <= StorageKey(host, urlPath))
  {
    var key := StorageKey(host, urlPath);
    StorageKeyShape(host, urlPath);
    assert host[0] != '/';
  }


  // ---------------------------------------------------------------------
  // Leaving the workspace and the host with `..`

  /** A path whose last element is `..` puts the cache file in the parent of
      the workspace, not inside it. */
  lemma LocalFilenameEscapesWorkspace(dir: string, e: string, urlPath: string)
    requires dir != [] && IsNamed(e) && e != ".."
    requires Base(urlPath) == ".."
    ensures LocalFilename(dir + "/" + e, urlPath) == Clean(dir)
  {
    LocalFilenameDotDot(dir + "/" + e, urlPath);
    CleanAppendNamedDotDot(dir, e);
  }

  /** A path that starts with `/../` climbs out of the host: the key is the
      rest of the path, sanitized and cleaned, and the host is gone. */
  lemma StorageKeyEscapesHost(host: string, rest: string)
    requires IsNamed(host) && host != ".."
    requires rest != [] && rest[0] != '/'
    ensures StorageKey(host, "/../" + rest) == Clean(SanitizePath(rest))
  {
    var s := SanitizePath(rest);
    SanitizeConcat("/../", rest);
    SanitizeFixesSafe("/../");
    assert "/../" + s == "/" + ".." + "/" + s;
    SanitizeKeepsSeparators(rest);
    CleanEscapesHead(host, s);
  }

  // ---------------------------------------------------------------------
  // A worked example

  /** `http://cdn.example.com/Assets/My File.PNG` is cached as `my_file.png`
      in the workspace: the space became `_` and the letters lower-case. */
  lemma ExampleFilename(workspace: string)
    requires workspace != []
    ensures LocalFilename(workspace, "/Assets/My File.PNG") == Extend(Clean(workspace), "my_file.png")
  {
    ExampleBase();
    ExampleSanitizeName();
    CleanAppendNamed(workspace, "my_file.png");
  }

  /** The same URL is stored under `cdn.example.com/assets/my_file.png`: the
      host is kept, and the whole path is sanitized, slashes included. */
  lemma ExampleKey()
    ensures StorageKey("cdn.example.com", "/Assets/My File.PNG") == "cdn.example.com/assets/my_file.png"
  {
    ExampleSanitizePath();
    ExampleKeyNames();
    ExampleKeyPath();
    ExampleKeyText();
    JoinHostTwoElems("cdn.example.com", "assets", "my_file.png");
  }

  lemma ExampleKeyNames()
    ensures IsNamed("cdn.example.com") && IsNamed("assets") && IsNamed("my_file.png")
  {
  }

  lemma ExampleKeyPath()
    ensures "/assets/my_file.png" == "/" + "assets" + "/" + "my_file.png"
  {
  }

  lemma ExampleKeyText()
    ensures "cdn.example.com/assets/my_file.png" == "cdn.example.com" + "/" + "assets" + "/" + "my_file.png"
  {
  }

  lemma ExampleSanitizePath()
    ensures SanitizePath("/Assets/My File.PNG") == "/assets/my_file.png"
  {
    SanitizeIs("/Assets/My File.PNG", "/assets/my_file.png");
  }

  /** A named host joined with `/e1/e2`, both named, is `host/e1/e2`. */
  lemma JoinHostTwoElems(host: string, e1: string, e2: string)
    requires IsNamed(host) && host != ".."
    requires IsNamed(e1) && e1 != ".." && IsNamed(e2) && e2 != ".."
    ensures Join(host, "/" + e1 + "/" + e2) == host + "/" + e1 + "/" + e2
  {
    var a := host + "/" + "";
    assert host + "/" + ("/" + e1 + "/" + e2) == a + "/" + e1 + "/" + e2;
    CleanNamed(host);
    CleanAppendDot(host, "");
    CleanAppendNamed(a, e1);
    CleanAppendNamed(a + "/" + e1, e2);
  }

  lemma ExampleBase()
    ensures Base("/Assets/My File.PNG") == "My File.PNG"
  {
    assert "/Assets/My File.PNG" == "/Assets" + "/" + "My File.PNG";
    BaseLastElement("/Assets", "My File.PNG");
  }

  lemma ExampleSanitizeName()
    ensures SanitizePath("My File.PNG") == "my_file.png"
  {
    SanitizeIs("My File.PNG", "my_file.png");
  }
}
