/** The server side of the editor: checking the nested directory object a
    client sends, flattening it into `/`-joined file paths, and checking the
    names of the library headers it asks for, before the files go into a
    tar archive. */
module AppService {

  import opened Wrappers
  import TextUtils

  /** A JSON value as the request body delivers it.  The entries of an
      object are listed in the order `Object.keys` enumerates them. */
  datatype Json =
    | JNull
    | JBool(b: bool)
    | JNum(n: real)
    | JStr(s: string)
    | JArr(items: seq<Json>)
    | JObj(entries: seq<(string, Json)>)

  /** What `Object.keys(null)` throws. */
  const NullToObject := "Cannot convert undefined or null to object"

  /** `validateDirObj`: `Ok(b)` for the boolean it returns, `Err` for the
      `TypeError` it throws when it reaches `null`.  Arrays are refused
      before their keys are looked at; a string's keys are its indices, each
      naming a one-character string, and numbers and booleans have no keys,
      so all three pass. */
  function ValidateDirObj(obj: Json): (r: Result<bool>)
    ensures obj.JArr? ==> r == Ok(false)
    ensures obj.JNull? ==> r == Err(NullToObject)
    ensures (obj.JStr? || obj.JNum? || obj.JBool?) ==> r == Ok(true)
    ensures !r.Unmodelled? && (r.Err? ==> r.message == NullToObject)
    decreases obj, 1
  {
    match obj
    case JArr(_) => Ok(false)
    case JNull => Err(NullToObject)
    case JObj(_) => EveryEntry(obj, 0)
    case _ => Ok(true)
  }

  /** `Object.keys(obj).every(...)` from entry `i` on: a string passes, an
      object (including an array or `null`) is validated recursively, any
      other value fails; the first failure or exception ends the scan. */
  function EveryEntry(obj: Json, i: nat): (r: Result<bool>)
    requires obj.JObj? && i <= |obj.entries|
    ensures !r.Unmodelled? && (r.Err? ==> r.message == NullToObject)
    decreases obj, 0, |obj.entries| - i
  {
    if i == |obj.entries| then Ok(true)
    else
      var v := obj.entries[i].1;
      assert obj.entries[i] in obj.entries;
      var here := if v.JStr? then Ok(true)
                  else if v.JObj? || v.JArr? || v.JNull? then ValidateDirObj(v)
                  else Ok(false);
      if here == Ok(true) then EveryEntry(obj, i + 1) else here
  }

  /** The shape of a `DirObject`, stated without evaluation order: every
      value of an object is a file (a string) or a directory (an object of
      the same shape); strings, numbers and booleans have no entries to
      check. */
  predicate DirShape(obj: Json)
    decreases obj, 1
  {
    match obj
    case JArr(_) => false
    case JNull => false
    case JObj(es) => forall j | 0 <= j < |es| :: EntryShape(es[j].1)
    case _ => true
  }

  /** A value that may sit in a directory: a file or a directory. */
  predicate EntryShape(v: Json)
    decreases v, 2
  {
    v.JStr? || (v.JObj? && DirShape(v))
  }

  /** `validateDirObj` returns `true` exactly on the directory shape. */
  lemma {:induction false} ValidateIffDirShape(obj: Json)
    ensures ValidateDirObj(obj) == Ok(true) <==> DirShape(obj)
    decreases obj, 1
  {
    if obj.JObj? {
      EveryEntryIffShape(obj, 0);
    }
  }

  lemma {:induction false} EveryEntryIffShape(obj: Json, i: nat)
    requires obj.JObj? && i <= |obj.entries|
    ensures EveryEntry(obj, i) == Ok(true) <==>
      forall j | i <= j < |obj.entries| :: EntryShape(obj.entries[j].1)
    decreases obj, 0, |obj.entries| - i
  {
    if i < |obj.entries| {
      var v := obj.entries[i].1;
      assert obj.entries[i] in obj.entries;
      if v.JObj? || v.JArr? || v.JNull? {
        ValidateIffDirShape(v);
      }
      EveryEntryIffShape(obj, i + 1);
    }
  }

  /** The scan stops at the first failing entry: a number before a `null`
      makes the result `false`, a `null` before a number makes it throw. */
  lemma ValidationStopsAtFirstFailure()
    ensures ValidateDirObj(JObj([("a", JNum(1.0)), ("b", JNull)])) == Ok(false)
    ensures ValidateDirObj(JObj([("b", JNull), ("a", JNum(1.0))])) == Err(NullToObject)
  {
    var o1 := JObj([("a", JNum(1.0)), ("b", JNull)]);
    assert EveryEntry(o1, 0) == Ok(false);
    var o2 := JObj([("b", JNull), ("a", JNum(1.0))]);
    assert EveryEntry(o2, 0) == Err(NullToObject);
  }

  /** The path of entry `key` in directory `dir`: the key alone at the top
      level, `dir/key` below it. */
  function JoinPath(dir: string, key: string): string
  {
    if dir == "" then key else dir + "/" + key
  }

  /** The calls `traverseDir(obj, cb, dir)` makes to `cb`, in order, as
      (path, file) pairs.  An object's entries are visited in order: a file
      is reported at its joined path, a directory is descended into with the
      joined path as its `dir`.  A string at the top is walked as its
      index/character entries. */
  function Leaves(obj: Json, dir: string): seq<(string, string)>
    decreases obj, 1
  {
    match obj
    case JStr(s) => seq(|s|, i requires 0 <= i < |s| => (JoinPath(dir, TextUtils.NatToString(i)), [s[i]]))
    case JObj(es) => EntriesLeaves(obj, |es|, dir)
    case _ => []
  }

  /** The calls made for the first `n` entries of `obj`. */
  function EntriesLeaves(obj: Json, n: nat, dir: string): seq<(string, string)>
    requires obj.JObj? && n <= |obj.entries|
    decreases obj, 0, n
  {
    if n == 0 then []
    else
      var (key, v) := obj.entries[n - 1];
      assert obj.entries[n - 1] in obj.entries;
      var p := JoinPath(dir, key);
      EntriesLeaves(obj, n - 1, dir) + (if v.JStr? then [(p, v.s)] else Leaves(v, p))
  }

  /** The files of a directory tree as key paths: one pair per string
      leaf, holding the keys from the top down to it and its contents, in
      depth-first entry order; directories contribute no pair of their
      own. */
  function KeyPaths(obj: Json): seq<(seq<string>, string)>
    decreases obj, 1
  {
    if obj.JObj? then EntriesKeyPaths(obj, |obj.entries|) else []
  }

  function EntriesKeyPaths(obj: Json, n: nat): seq<(seq<string>, string)>
    requires obj.JObj? && n <= |obj.entries|
    decreases obj, 0, n
  {
    if n == 0 then []
    else
      var (key, v) := obj.entries[n - 1];
      assert obj.entries[n - 1] in obj.entries;
      EntriesKeyPaths(obj, n - 1) + (if v.JStr? then [([key], v.s)] else Under(key, KeyPaths(v)))
  }

  /** Key paths one directory further down. */
  function Under(key: string, ps: seq<(seq<string>, string)>): (r: seq<(seq<string>, string)>)
    ensures |r| == |ps| && forall i | 0 <= i < |ps| :: r[i] == ([key] + ps[i].0, ps[i].1)
  {
    seq(|ps|, i requires 0 <= i < |ps| => ([key] + ps[i].0, ps[i].1))
  }

  /** The path reached from `dir` by joining the keys one at a time. */
  function JoinAll(dir: string, keys: seq<string>): string
    decreases |keys|
  {
    if keys == [] then dir else JoinAll(JoinPath(dir, keys[0]), keys[1..])
  }

  /** Key paths rendered as the (path, file) pairs of the callback. */
  function Render(dir: string, ps: seq<(seq<string>, string)>): (r: seq<(string, string)>)
    ensures |r| == |ps| && forall i | 0 <= i < |ps| :: r[i] == (JoinAll(dir, ps[i].0), ps[i].1)
  {
    seq(|ps|, i requires 0 <= i < |ps| => (JoinAll(dir, ps[i].0), ps[i].1))
  }

  /** `traverseDir` on a directory reports each file once, at the path
      its keys lead to, depth first in entry order. */
  lemma {:induction false} LeavesAreKeyPaths(obj: Json, dir: string)
    requires obj.JObj? && DirShape(obj)
    ensures Leaves(obj, dir) == Render(dir, KeyPaths(obj))
    decreases obj, 1
  {
    EntriesLeavesAreKeyPaths(obj, |obj.entries|, dir);
  }

  lemma {:induction false} EntriesLeavesAreKeyPaths(obj: Json, n: nat, dir: string)
    requires obj.JObj? && DirShape(obj) && n <= |obj.entries|
    ensures EntriesLeaves(obj, n, dir) == Render(dir, EntriesKeyPaths(obj, n))
    decreases obj, 0, n
  {
    if n > 0 {
      var (key, v) := obj.entries[n - 1];
      assert obj.entries[n - 1] in obj.entries;
      EntriesLeavesAreKeyPaths(obj, n - 1, dir);
      EntryLeavesAreKeyPaths(key, v, dir);
      EntriesLeavesStep(obj, n - 1, dir);
      RenderAppend(dir, EntriesKeyPaths(obj, n - 1), EntryKeyPaths(key, v));
    }
  }

  /** The key paths of one entry. */
  function EntryKeyPaths(key: string, v: Json): seq<(seq<string>, string)>
  {
    if v.JStr? then [([key], v.s)] else Under(key, KeyPaths(v))
  }

  lemma {:induction false} EntryLeavesAreKeyPaths(key: string, v: Json, dir: string)
    requires EntryShape(v)
    ensures EntryLeaves(key, v, dir) == Render(dir, EntryKeyPaths(key, v))
    decreases v, 2
  {
    if v.JStr? {
      assert JoinAll(dir, [key]) == JoinAll(JoinPath(dir, key), []);
    } else {
      LeavesAreKeyPaths(v, JoinPath(dir, key));
      RenderUnder(dir, key, KeyPaths(v));
    }
  }

  lemma RenderAppend(dir: string, a: seq<(seq<string>, string)>, b: seq<(seq<string>, string)>)
    ensures Render(dir, a + b) == Render(dir, a) + Render(dir, b)
  {
  }

  lemma RenderUnder(dir: string, key: string, ps: seq<(seq<string>, string)>)
    ensures Render(dir, Under(key, ps)) == Render(JoinPath(dir, key), ps)
  {
    forall i | 0 <= i < |ps|
      ensures JoinAll(dir, [key] + ps[i].0) == JoinAll(JoinPath(dir, key), ps[i].0)
    {
      assert ([key] + ps[i].0)[1..] == ps[i].0;
    }
  }

  /** The keys joined by `/`. */
  function Slash(keys: seq<string>): string
    requires |keys| >= 1
  {
    if |keys| == 1 then keys[0] else keys[0] + "/" + Slash(keys[1..])
  }

  lemma {:induction false} JoinAllFrom(dir: string, keys: seq<string>)
    requires dir != "" && |keys| >= 1 && forall k | k in keys :: k != ""
    ensures JoinAll(dir, keys) == dir + "/" + Slash(keys)
    decreases |keys|
  {
    if |keys| > 1 {
      assert forall k | k in keys[1..] :: k in keys;
      JoinAllFrom(dir + "/" + keys[0], keys[1..]);
      assert dir + "/" + keys[0] + "/" + Slash(keys[1..]) == dir + "/" + (keys[0] + "/" + Slash(keys[1..]));
    }
  }

  /** From the top level, a file's path is its keys joined by `/`, so it
      starts with its first key and never with an added `/`; this needs
      the keys on the way to be non-empty, since an empty directory key is
      dropped at the top and doubles the `/` below it. */
  lemma TopLevelPathIsSlashJoin(keys: seq<string>)
    requires |keys| >= 1 && forall k | k in keys :: k != ""
    ensures JoinAll("", keys) == Slash(keys)
    ensures JoinAll("", keys)[..|keys[0]|] == keys[0]
  {
    if |keys| == 1 {
      assert JoinAll("", keys) == JoinAll(keys[0], []);
    } else {
      assert keys[0] in keys && forall k | k in keys[1..] :: k in keys;
      assert JoinAll("", keys) == JoinAll(keys[0], keys[1..]);
      JoinAllFrom(keys[0], keys[1..]);
    }
  }

  /** An empty directory key at the top level leaves no trace in the path. */
  lemma EmptyTopKeyDropped()
    ensures Leaves(JObj([("", JObj([("a.cpp", JStr("x"))]))]), "") == [("a.cpp", "x")]
  {
    var inner := JObj([("a.cpp", JStr("x"))]);
    var obj := JObj([("", inner)]);
    assert EntriesLeaves(inner, 1, "") == [("a.cpp", "x")];
    assert EntriesLeaves(obj, 1, "") == Leaves(inner, "");
  }

  /** A file of the archive: text from the sources, bytes from a header. */
  datatype Content = Text(text: string) | Bytes(data: seq<bv8>)

  /** The tar archive being built: its files in the order appended. */
  class Tar {
    var files: seq<(string, Content)>

    constructor()
      ensures files == []
    {
      files := [];
    }

    /** `append(path, file)`: adds one file at the end. */
    method Append(path: string, file: Content)
      modifies this
      ensures files == old(files) + [(path, file)]
    {
      files := files + [(path, file)];
    }
  }

  /** The callback calls as archive files. */
  function Texts(calls: seq<(string, string)>): (r: seq<(string, Content)>)
    ensures |r| == |calls| && forall i | 0 <= i < |calls| :: r[i] == (calls[i].0, Text(calls[i].1))
  {
    seq(|calls|, i requires 0 <= i < |calls| => (calls[i].0, Text(calls[i].1)))
  }

  lemma TextsAppend(a: seq<(string, string)>, b: seq<(string, string)>)
    ensures Texts(a + b) == Texts(a) + Texts(b)
  {
  }

  /** One more entry of an object: its file, or the files below it. */
  lemma EntriesLeavesStep(obj: Json, i: nat, dir: string)
    requires obj.JObj? && i < |obj.entries|
    ensures var (key, v) := obj.entries[i];
      EntriesLeaves(obj, i + 1, dir) == EntriesLeaves(obj, i, dir) + EntryLeaves(key, v, dir)
  {
  }

  /** One more character of a string walked as an object. */
  lemma StrLeavesStep(s: string, dir: string, i: nat)
    requires i < |s|
    ensures Leaves(JStr(s), dir)[..i + 1] ==
      Leaves(JStr(s), dir)[..i] + [(JoinPath(dir, TextUtils.NatToString(i)), [s[i]])]
  {
  }

  /** `traverseDir(obj, (path, file) => tar.append(path, file), dir)`. */
  method TraverseDir(obj: Json, tar: Tar, dir: string)
    requires DirShape(obj)
    modifies tar
    ensures tar.files == old(tar.files) + Texts(Leaves(obj, dir))
    decreases obj, 1
  {
    match obj {
      case JStr(s) => TraverseChars(s, tar, dir);
      case JObj(es) => TraverseEntries(obj, tar, dir);
      case _ =>
    }
  }

  /** The `forEach` over a string's index/character entries. */
  method TraverseChars(s: string, tar: Tar, dir: string)
    modifies tar
    ensures tar.files == old(tar.files) + Texts(Leaves(JStr(s), dir))
  {
    for i := 0 to |s|
      invariant tar.files == old(tar.files) + Texts(Leaves(JStr(s), dir)[..i])
    {
      var path := JoinPath(dir, TextUtils.NatToString(i));
      tar.Append(path, Text([s[i]]));
      StrLeavesStep(s, dir, i);
      TextsAppend(Leaves(JStr(s), dir)[..i], [(path, [s[i]])]);
    }
    assert Leaves(JStr(s), dir)[..|s|] == Leaves(JStr(s), dir);
  }

  /** The `forEach` over an object's entries, in order. */
  method TraverseEntries(obj: Json, tar: Tar, dir: string)
    requires obj.JObj? && DirShape(obj)
    modifies tar
    ensures tar.files == old(tar.files) + Texts(EntriesLeaves(obj, |obj.entries|, dir))
    decreases obj, 0
  {
    for i := 0 to |obj.entries|
      invariant tar.files == old(tar.files) + Texts(EntriesLeaves(obj, i, dir))
    {
      var (key, v) := obj.entries[i];
      assert obj.entries[i] in obj.entries;
      assert EntryShape(v);
      ghost var before := tar.files;
      TraverseEntry(key, v, tar, dir);
      EntriesLeavesStep(obj, i, dir);
      FilesStep(old(tar.files), EntriesLeaves(obj, i, dir), EntryLeaves(key, v, dir), before, tar.files);
    }
  }

  /** Appending the files of `b` after those of `a` appends the files of `a + b`. */
  lemma FilesStep(f0: seq<(string, Content)>, a: seq<(string, string)>, b: seq<(string, string)>,
                  f1: seq<(string, Content)>, f2: seq<(string, Content)>)
    requires f1 == f0 + Texts(a) && f2 == f1 + Texts(b)
    ensures f2 == f0 + Texts(a + b)
  {
    TextsAppend(a, b);
  }

  /** The calls for one entry: its file, or the files below it. */
  function EntryLeaves(key: string, v: Json, dir: string): seq<(string, string)>
  {
    if v.JStr? then [(JoinPath(dir, key), v.s)] else Leaves(v, JoinPath(dir, key))
  }

  /** One entry: a file is appended at its joined path, a directory is
      traversed with that path as its `dir`. */
  method TraverseEntry(key: string, v: Json, tar: Tar, dir: string)
    requires EntryShape(v)
    modifies tar
    ensures tar.files == old(tar.files) + Texts(EntryLeaves(key, v, dir))
    decreases v, 2
  {
    var p := JoinPath(dir, key);
    if v.JStr? {
      tar.Append(p, Text(v.s));
    } else {
      TraverseDir(v, tar, p);
    }
  }

  /** `\w`: an ASCII letter, digit or underscore. */
  predicate WordChar(c: char)
  {
    ('a' <= c <= 'z') || ('A' <= c <= 'Z') || ('0' <= c <= '9') || c == '_'
  }

  /** The whole of `lib` matches `^\w+$`. */
  predicate IsWord(lib: string)
  {
    |lib| >= 1 && forall i | 0 <= i < |lib| :: WordChar(lib[i])
  }

  /** The archive path of an include. */
  function LibPath(lib: string): string
  {
    "lib/" + lib + ".h"
  }

  /** A name that passes the check cannot leave the `lib` directory: its
      path has one `/`, after `lib`, and no `.` before the extension. */
  lemma LibPathStaysInLib(lib: string)
    requires IsWord(lib)
    ensures var path := LibPath(lib);
      path[..4] == "lib/" && path[|path| - 2..] == ".h" &&
      forall i | 4 <= i < |path| - 2 :: path[i] != '/' && path[i] != '.'
  {
    var path := LibPath(lib);
    forall i | 4 <= i < |path| - 2
      ensures path[i] != '/' && path[i] != '.'
    {
      assert path[i] == lib[i - 4];
    }
  }

  /** The headers of the includes, in order; `read` gives a header's
      bytes. */
  function LibFiles(includes: seq<string>, read: string -> seq<bv8>): (r: seq<(string, Content)>)
    ensures |r| == |includes|
    ensures forall i | 0 <= i < |includes| :: r[i] == (LibPath(includes[i]), Bytes(read(includes[i])))
  {
    seq(|includes|, i requires 0 <= i < |includes| => (LibPath(includes[i]), Bytes(read(includes[i]))))
  }

  /** How a request is refused: a `BadRequestException` with its message,
      or the `TypeError` validation throws on `null`. */
  datatype Failure = BadRequest(message: string) | TypeError(message: string)

  datatype Outcome = Bundled(tar: Tar) | Refused(failure: Failure)

  const InvalidSources := "Invalid sources collection"
  const InvalidLib := "Invalid lib path"

  /** The checks `bundle` makes before building anything, in its order. */
  function Admission(includes: seq<string>, sources: Json): (r: Option<Failure>)
    ensures r.None? <==> DirShape(sources) && forall lib | lib in includes :: IsWord(lib)
    ensures ValidateDirObj(sources) == Ok(false) ==> r == Some(BadRequest(InvalidSources))
    ensures ValidateDirObj(sources).Err? ==> r == Some(TypeError(NullToObject))
    ensures DirShape(sources) && (exists lib | lib in includes :: !IsWord(lib)) ==>
      r == Some(BadRequest(InvalidLib))
  {
    ValidateIffDirShape(sources);
    match ValidateDirObj(sources)
    case Err(m) => Some(TypeError(m))
    case Unmodelled => None
    case Ok(valid) =>
      if !valid then Some(BadRequest(InvalidSources))
      else if exists lib | lib in includes :: !IsWord(lib) then Some(BadRequest(InvalidLib))
      else None
  }

  /** `bundle` up to the archive: refuse, or put the source files (depth
      first, at their joined paths) and then one header per include into a
      new archive. */
  method Bundle(includes: seq<string>, sources: Json, read: string -> seq<bv8>) returns (r: Outcome)
    ensures Admission(includes, sources).Some? ==> r == Refused(Admission(includes, sources).value)
    ensures Admission(includes, sources).None? ==>
      r.Bundled? && fresh(r.tar) &&
      r.tar.files == Texts(Leaves(sources, "")) + LibFiles(includes, read)
  {
    var refusal := Admission(includes, sources);
    if refusal.Some? {
      return Refused(refusal.value);
    }
    var tar := new Tar();
    TraverseDir(sources, tar, "");
    ghost var sourceFiles := tar.files;
    for i := 0 to |includes|
      invariant tar.files == sourceFiles + LibFiles(includes[..i], read)
    {
      tar.Append(LibPath(includes[i]), Bytes(read(includes[i])));
      assert LibFiles(includes[..i + 1], read) == LibFiles(includes[..i], read) + [(LibPath(includes[i]), Bytes(read(includes[i])))];
    }
    assert includes[..|includes|] == includes;
    return Bundled(tar);
  }
}
