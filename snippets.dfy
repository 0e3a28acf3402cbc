/**
 * The `Snippet` record of src/functions.py: the defaults its constructor
 * derives from a template's front matter, its variables (mutable
 * dictionaries shared with the extension), `next_variable`,
 * `get_variable`, and `get_snippets`, which turns the template files a
 * search matches into snippets.
 */
module Snippets {
  import opened Strings
  import Fuzzy

  /** The icon used when the front matter names none. */
  const DefaultIcon: string := "images/icon.png"

  /** One entry of the front matter's `vars` dictionary (its `label`,
      `default` and `value` keys). `None` is a key that is absent. */
  datatype VarDecl = VarDecl(caption: Option<string>, default: Option<string>, value: Option<string>)

  /** The keys of the front matter the constructor reads, and the `vars`
      entries in their order of declaration. */
  datatype Header = Header(
    name: Option<string>,
    description: Option<string>,
    icon: Option<string>,
    vars: seq<(string, VarDecl)>)

  // ---------------------------------------------------------------- paths

  predicate EndsWithSlash(s: string) {
    s != [] && s[|s| - 1] == '/'
  }

  /** `os.path.join(a, b)`: an absolute `b` wins, otherwise the two are
      glued with one `/` unless `a` is empty or already ends with one. */
  function PathJoin(a: string, b: string): string {
    if StartsWith(b, "/") then b
    else if a == [] || EndsWithSlash(a) then a + b
    else a + "/" + b
  }

  /** The join ends with its second part, and starts with the first when
      the second is relative. */
  lemma PathJoinShape(a: string, b: string)
    ensures var r := PathJoin(a, b);
      && |b| <= |r| && r[|r| - |b|..] == b
      && (!StartsWith(b, "/") ==> a <= r)
  {
  }

  /** `str(Path(path).relative_to(root))`, or `None` where it raises
      `ValueError` because `path` does not lie under `root`. A non-empty
      root is followed by one `/` unless it already ends with one. */
  function RelativeTo(path: string, root: string): (r: Option<string>)
    ensures root != [] && path == root ==> r == Some(".")
    ensures r.Some? && root != [] && r.value != "." ==> |r.value| < |path|
  {
    if root == [] then (if StartsWith(path, "/") then None else Some(path))
    else if path == root then Some(".")
    else
      var sep := Separated(root);
      if StartsWith(path, sep) then Some(path[|sep|..]) else None
  }

  /** What `relative_to` returns, joined back onto the root, gives the path
      again. */
  lemma RelativeToJoin(path: string, root: string)
    requires RelativeTo(path, root).Some?
    requires RelativeTo(path, root).value != "." && !StartsWith(RelativeTo(path, root).value, "/")
    ensures PathJoin(root, RelativeTo(path, root).value) == path
  {
    if root != [] {
      var sep := Separated(root);
      assert path == sep + path[|sep|..];
      JoinUnder(root);
    }
  }

  /** `relative_to` raises only when nothing joined onto the root gives the
      path. */
  lemma RelativeToRaises(path: string, root: string)
    requires RelativeTo(path, root).None?
    ensures path != root
    ensures forall f :: !StartsWith(f, "/") ==> PathJoin(root, f) != path
  {
    if root != [] {
      JoinUnder(root);
    }
  }

  /** The root followed by exactly one trailing `/`. */
  function Separated(root: string): (sep: string)
    requires root != []
    ensures root <= sep && EndsWithSlash(sep)
  {
    if EndsWithSlash(root) then root else root + "/"
  }

  /** Every relative path joined onto a non-empty root starts with the root
      and its separator. */
  lemma JoinUnder(root: string)
    requires root != []
    ensures forall f :: !StartsWith(f, "/") ==> PathJoin(root, f) == Separated(root) + f
  {
  }

  /** A relative file joined onto a root is found again under that root. */
  lemma RelativeJoin(root: string, file: string)
    requires file != [] && !StartsWith(file, "/")
    ensures RelativeTo(PathJoin(root, file), root) == Some(file)
  {
    var p := PathJoin(root, file);
    if root != [] {
      JoinUnder(root);
      var sep := Separated(root);
      assert p == sep + file;
      assert p[..|sep|] == sep;
      assert p != root by {
        assert |p| > |sep| >= |root|;
      }
    } else {
      assert p == [] + file == file;
    }
  }

  /** `file_name[:-3]`: the file name without its last three characters. */
  function StripSuffix3(s: string): (r: string)
    ensures |s| >= 3 ==> r == s[..|s| - 3]
    ensures |s| < 3 ==> r == []
  {
    Take(s, if |s| >= 3 then |s| - 3 else 0)
  }

  // ---------------------------------------------------------------- constructor defaults

  /** The scalar attributes `Snippet.__init__` sets. */
  datatype Info = Info(
    path: string,
    icon: string,
    name: string,
    description: string,
    globalsPath: string,
    filtersPath: string)

  /** The attributes a snippet gets from its path, the root directory and the
      loaded front matter and body; an error where `relative_to` raises. */
  function Describe(path: string, root: string, header: Header, content: string): (r: Result<Info, string>)
    ensures r.Ok? <==> RelativeTo(path, root).Some?
    ensures r.Ok? ==> r.value.path == path
    ensures r.Ok? ==> r.value.globalsPath == PathJoin(root, "globals.py")
    ensures r.Ok? ==> r.value.filtersPath == PathJoin(root, "filters.py")
    // keys present in the front matter are taken as written
    ensures r.Ok? && header.name.Some? ==> r.value.name == header.name.value
    ensures r.Ok? && header.description.Some? ==> r.value.description == header.description.value
  {
    match RelativeTo(path, root)
    case None => Err("path is not under the root directory")
    case Some(file) =>
      var icon := if header.icon.Some? && header.icon.value != "" then PathJoin(root, header.icon.value) else DefaultIcon;
      var name := if header.name.Some? then header.name.value else StripSuffix3(file);
      var description := if header.description.Some? then header.description.value else Take(content, 40);
      Ok(Info(path, icon, name, description, PathJoin(root, "globals.py"), PathJoin(root, "filters.py")))
  }

  /** A template `stem.j2` found under the root and without a `name` key is
      named after its path relative to the root, without the extension. */
  lemma NameOfTemplate(root: string, stem: string, header: Header, content: string)
    requires stem != [] && !StartsWith(stem, "/")
    requires header.name.None?
    ensures var r := Describe(PathJoin(root, stem + ".j2"), root, header, content);
      r.Ok? && r.value.name == stem
  {
    assert StartsWith(stem + ".j2", "/") == StartsWith(stem, "/");
    RelativeJoin(root, stem + ".j2");
    assert (stem + ".j2")[..|stem|] == stem;
  }

  /** Without a `description` key the description is the body's first 40
      characters, or the whole body when it is shorter. */
  lemma DescriptionOfBody(path: string, root: string, header: Header, content: string)
    requires header.description.None?
    requires RelativeTo(path, root).Some?
    ensures var d := Describe(path, root, header, content).value.description;
      d == content[..if |content| < 40 then |content| else 40]
  {
  }

  /** Without a non-empty `icon` key the extension's own icon is used;
      with one, the icon is that path joined onto the root. */
  lemma IconChoice(path: string, root: string, header: Header, content: string)
    requires RelativeTo(path, root).Some?
    ensures var icon := Describe(path, root, header, content).value.icon;
      && (header.icon.None? || header.icon.value == "" ==> icon == DefaultIcon)
      && (header.icon.Some? && header.icon.value != "" ==> icon == PathJoin(root, header.icon.value))
  {
  }

  // ---------------------------------------------------------------- variables

  /** One variable dictionary. Label and default never change; `value` is
      written by the query handler while the extension collects input. */
  class Variable {
    const caption: Option<string>
    const default: Option<string>
    var value: Option<string>

    constructor(d: VarDecl)
      ensures caption == d.caption && default == d.default && value == d.value
    {
      caption := d.caption;
      default := d.default;
      value := d.value;
    }

    /** `not variable.get("value")`: no value, or an empty one. */
    predicate Unset()
      reads this
    {
      value.None? || value.value == ""
    }

    /** The dictionary is non-empty, so Python treats it as true. */
    predicate Truthy()
      reads this
    {
      caption.Some? || default.Some? || value.Some?
    }
  }

  /** Index of the first variable that still needs a value. */
  function FirstUnset(vs: seq<Variable>): (r: Option<nat>)
    reads set k | 0 <= k < |vs| :: vs[k]
    ensures r.Some? ==> r.value < |vs| && vs[r.value].Unset()
    ensures r.Some? ==> forall k :: 0 <= k < r.value ==> !vs[k].Unset()
    ensures r.None? ==> forall k :: 0 <= k < |vs| ==> !vs[k].Unset()
    decreases |vs|
  {
    if vs == [] then None
    else if vs[0].Unset() then Some(0)
    else match FirstUnset(vs[1..])
      case None => None
      case Some(k) => Some(k + 1)
  }

  /** Index of the first entry with the given key: `dict.get` on a
      dictionary whose keys are unique. */
  function IndexOf(ids: seq<string>, name: string): (r: Option<nat>)
    ensures r.Some? <==> name in ids
    ensures r.Some? ==> r.value < |ids| && ids[r.value] == name
    ensures r.Some? ==> forall k :: 0 <= k < r.value ==> ids[k] != name
    decreases |ids|
  {
    if ids == [] then None
    else if ids[0] == name then Some(0)
    else match IndexOf(ids[1..], name)
      case None => None
      case Some(k) => Some(k + 1)
  }

  class Snippet {
    const path: string
    const icon: string
    const name: string
    const description: string
    const globalsPath: string
    const filtersPath: string
    /** The keys of `vars`, in order, and the dictionary stored under each. */
    const ids: seq<string>
    const variables: seq<Variable>

    ghost predicate Valid() {
      && |ids| == |variables|
      && forall i, j :: 0 <= i < j < |variables| ==> variables[i] != variables[j]
    }

    /** The scalar attributes, as the constructor received them. */
    function Attributes(): Info {
      Info(path, icon, name, description, globalsPath, filtersPath)
    }

    ghost function Vars(): set<Variable> {
      set k | 0 <= k < |variables| :: variables[k]
    }

    /** The snippet holds the `vars` of `header`: one distinct dictionary
        per declared key, in order, with the declared label, default and
        value. */
    ghost predicate Declares(header: Header)
      reads variables
    {
      && Valid()
      && ids == Ids(header.vars) && |variables| == |header.vars|
      && forall k :: 0 <= k < |variables| ==>
           variables[k].caption == header.vars[k].1.caption
           && variables[k].default == header.vars[k].1.default
           && variables[k].value == header.vars[k].1.value
    }

    /** `Snippet(path, root_path)`, with the file already loaded into
        `header` and `content`. */
    constructor(info: Info, header: Header)
      ensures path == info.path && icon == info.icon && name == info.name
      ensures description == info.description
      ensures globalsPath == info.globalsPath && filtersPath == info.filtersPath
      ensures ids == Ids(header.vars) && |variables| == |header.vars|
      ensures forall k :: 0 <= k < |variables| ==> fresh(variables[k])
      ensures forall k :: 0 <= k < |variables| ==>
                variables[k].caption == header.vars[k].1.caption
                && variables[k].default == header.vars[k].1.default
                && variables[k].value == header.vars[k].1.value
      ensures Valid()
    {
      var vs: seq<Variable> := [];
      for i := 0 to |header.vars|
        invariant |vs| == i
        invariant forall k :: 0 <= k < i ==> fresh(vs[k])
        invariant forall k, l :: 0 <= k < l < i ==> vs[k] != vs[l]
        invariant forall k :: 0 <= k < i ==>
                    vs[k].caption == header.vars[k].1.caption
                    && vs[k].default == header.vars[k].1.default
                    && vs[k].value == header.vars[k].1.value
      {
        var v := new Variable(header.vars[i].1);
        vs := vs + [v];
      }
      path := info.path;
      icon := info.icon;
      name := info.name;
      description := info.description;
      globalsPath := info.globalsPath;
      filtersPath := info.filtersPath;
      ids := Ids(header.vars);
      variables := vs;
    }

    /** `next_variable()`: the first variable, in declaration order, whose
        value is missing or empty; `null` (Python's `None`) when every
        variable has one. */
    method NextVariable() returns (v: Variable?)
      requires Valid()
      ensures FirstUnset(variables).None? ==> v == null
      ensures FirstUnset(variables).Some? ==> v == variables[FirstUnset(variables).value]
    {
      for i := 0 to |variables|
        invariant forall k :: 0 <= k < i ==> !variables[k].Unset()
      {
        if variables[i].Unset() {
          assert variables[i..][0] == variables[i];
          FirstUnsetAt(variables, i);
          return variables[i];
        }
      }
      FirstUnsetNone(variables);
      return null;
    }

    /** `get_variable(name)`: the stored value when the dictionary has one
        (even empty), else its default, else `""`; `None` where Python raises
        because no variable has that name. */
    function GetVariable(name: string): (r: Option<string>)
      requires Valid()
      reads Vars()
      ensures r.None? <==> name !in ids
      // a stored value is returned as it is, even an empty one
      ensures name in ids && variables[IndexOf(ids, name).value].value.Some? ==>
                r == variables[IndexOf(ids, name).value].value
      // otherwise the default, or the empty string
      ensures name in ids && variables[IndexOf(ids, name).value].value.None? ==>
                var d := variables[IndexOf(ids, name).value].default;
                r == Some(if d.Some? then d.value else "")
    {
      match IndexOf(ids, name)
      case None => None
      case Some(k) =>
        var v := variables[k];
        Some(if v.value.Some? then v.value.value else if v.default.Some? then v.default.value else "")
    }
  }

  lemma FirstUnsetAt(vs: seq<Variable>, i: nat)
    requires i < |vs| && vs[i].Unset()
    requires forall k :: 0 <= k < i ==> !vs[k].Unset()
    ensures FirstUnset(vs) == Some(i)
  {
  }

  lemma FirstUnsetNone(vs: seq<Variable>)
    requires forall k :: 0 <= k < |vs| ==> !vs[k].Unset()
    ensures FirstUnset(vs).None?
  {
  }

  /** Once `next_variable` finds nothing left to ask, every variable the
      template looks up through `vars(name)` yields the non-empty value the
      user gave it, never the default. */
  lemma ResolvedLookup(s: Snippet, name: string)
    requires s.Valid()
    requires FirstUnset(s.variables).None?
    requires name in s.ids
    ensures var r := s.GetVariable(name);
      r.Some? && r.value != "" && r.value == s.variables[IndexOf(s.ids, name).value].value.value
  {
    var k := IndexOf(s.ids, name).value;
    assert !s.variables[k].Unset();
  }

  /** A variable holding no value reads as its default, or `""` without one. */
  lemma DefaultLookup(s: Snippet, name: string)
    requires s.Valid()
    requires name in s.ids
    requires s.variables[IndexOf(s.ids, name).value].value.None?
    ensures var d := s.variables[IndexOf(s.ids, name).value].default;
      s.GetVariable(name) == Some(if d.Some? then d.value else "")
  {
  }

  /** The front matter of test-snippets/frontmatter.j2 as far as the
      variables go: `name` with only a caption, `other_var` with a default. */
  function FrontmatterVars(): seq<(string, VarDecl)> {
    [("name", VarDecl(Some("Name of the component"), None, None)),
     ("other_var", VarDecl(Some("With default"), Some("Hi"), None))]
  }

  /** The doctest of the `Snippet` class: the first unset variable is
      `name`; after it is set, `other_var`; then `get_variable` reads
      `"Set"` and the default `"Hi"`. */
  method DoctestReplay(info: Info) returns (first: Variable?, second: Variable?, name: Option<string>, other: Option<string>)
    ensures first != null && first.caption == Some("Name of the component") && first.default.None?
    ensures second != null && second.caption == Some("With default") && second.default == Some("Hi")
    ensures name == Some("Set") && other == Some("Hi")
  {
    var s := new Snippet(info, Header(None, None, None, FrontmatterVars()));
    first := s.NextVariable();
    assert FirstUnset(s.variables) == Some(0);
    s.variables[0].value := Some("Set");
    assert FirstUnset(s.variables) == Some(1) by {
      assert !s.variables[0].Unset() && s.variables[1].Unset();
      FirstUnsetAt(s.variables, 1);
    }
    second := s.NextVariable();
    assert IndexOf(s.ids, "name") == Some(0);
    name := s.GetVariable("name");
    assert IndexOf(s.ids, "other_var") == Some(1) by {
      assert s.ids[0] != "other_var" && s.ids[1] == "other_var";
    }
    other := s.GetVariable("other_var");
  }

  // ---------------------------------------------------------------- get_snippets

  /** The keys of a `vars` list, in order. */
  function Ids(vars: seq<(string, VarDecl)>): (r: seq<string>)
    ensures |r| == |vars| && forall k :: 0 <= k < |r| ==> r[k] == vars[k].0
  {
    seq(|vars|, k requires 0 <= k < |vars| => vars[k].0)
  }

  /** The attributes of the snippets built from `files`, in order; the
      error of the first file that cannot be read (it is missing from `fs`)
      or does not lie under `root`. */
  function LoadInfos(root: string, files: seq<string>, fs: map<string, (Header, string)>): (r: Result<seq<Info>, string>)
    ensures r.Ok? ==> |r.value| == |files|
    decreases |files|
  {
    if files == [] then Ok([])
    else
      var init, file := files[..|files| - 1], files[|files| - 1];
      match LoadInfos(root, init, fs)
      case Err(e) => Err(e)
      case Ok(infos) =>
        if file !in fs then Err("No such file or directory")
        else match Describe(file, root, fs[file].0, fs[file].1)
          case Err(e) => Err(e)
          case Ok(info) => Ok(infos + [info])
  }

  /** Every file can be read and lies under the root. */
  predicate Loadable(root: string, files: seq<string>, fs: map<string, (Header, string)>) {
    forall k :: 0 <= k < |files| ==> files[k] in fs && RelativeTo(files[k], root).Some?
  }

  /** The list loads exactly when every file can be read and lies under the
      root. */
  lemma {:induction false} LoadInfosOk(root: string, files: seq<string>, fs: map<string, (Header, string)>)
    ensures LoadInfos(root, files, fs).Ok? <==> Loadable(root, files, fs)
    decreases |files|
  {
    if files != [] {
      var init, file := files[..|files| - 1], files[|files| - 1];
      LoadInfosOk(root, init, fs);
      LoadInfosStep(root, files, fs);
      LoadableSnoc(root, files, fs);
    }
  }

  /** A list is loadable iff its prefix is and its last file is. */
  lemma LoadableSnoc(root: string, files: seq<string>, fs: map<string, (Header, string)>)
    requires files != []
    ensures var init, file := files[..|files| - 1], files[|files| - 1];
      Loadable(root, files, fs) <==> Loadable(root, init, fs) && file in fs && RelativeTo(file, root).Some?
  {
    var init := files[..|files| - 1];
    assert forall k :: 0 <= k < |init| ==> files[k] == init[k];
  }

  /** A list that loads holds, for each file, the attributes the
      constructor derives from it. */
  lemma {:induction false} LoadInfosValues(root: string, files: seq<string>, fs: map<string, (Header, string)>)
    requires LoadInfos(root, files, fs).Ok?
    ensures forall k :: 0 <= k < |files| ==>
              files[k] in fs && Describe(files[k], root, fs[files[k]].0, fs[files[k]].1) == Ok(LoadInfos(root, files, fs).value[k])
    decreases |files|
  {
    if files != [] {
      var init, file := files[..|files| - 1], files[|files| - 1];
      LoadInfosStep(root, files, fs);
      LoadInfosValues(root, init, fs);
      var infos := LoadInfos(root, files, fs).value;
      forall k | 0 <= k < |files|
        ensures files[k] in fs && Describe(files[k], root, fs[files[k]].0, fs[files[k]].1) == Ok(infos[k])
      {
        if k < |init| {
          assert files[k] == init[k] && infos[k] == LoadInfos(root, init, fs).value[k];
        } else {
          var d := Describe(file, root, fs[file].0, fs[file].1);
          assert d.Ok? && infos[k] == d.value;
        }
      }
    }
  }

  /** One unfolding of `LoadInfos`: the prefix, then the last file. */
  lemma LoadInfosStep(root: string, files: seq<string>, fs: map<string, (Header, string)>)
    requires files != []
    ensures var init, file := files[..|files| - 1], files[|files| - 1];
      var r := LoadInfos(root, files, fs);
      && (r.Ok? <==> LoadInfos(root, init, fs).Ok? && file in fs && RelativeTo(file, root).Some?)
      && (r.Ok? ==> r.value == LoadInfos(root, init, fs).value + [Describe(file, root, fs[file].0, fs[file].1).value])
  {
  }

  /** Loading one more file after a prefix that loads. */
  lemma LoadInfosNext(root: string, files: seq<string>, fs: map<string, (Header, string)>, i: nat, infos: seq<Info>)
    requires i < |files| && LoadInfos(root, files[..i], fs) == Ok(infos)
    ensures var file := files[i];
      LoadInfos(root, files[..i + 1], fs) ==
        if file !in fs then Err("No such file or directory")
        else match Describe(file, root, fs[file].0, fs[file].1)
          case Err(e) => Err(e)
          case Ok(info) => Ok(infos + [info])
  {
    assert files[..i + 1][..i] == files[..i];
  }

  /** Once a prefix of the files fails, so does the whole list, with the
      same error. */
  lemma {:induction false} LoadInfosErr(root: string, files: seq<string>, fs: map<string, (Header, string)>, n: nat)
    requires n <= |files| && LoadInfos(root, files[..n], fs).Err?
    ensures LoadInfos(root, files, fs) == LoadInfos(root, files[..n], fs)
    decreases |files| - n
  {
    if n < |files| {
      assert files[..n + 1][..n] == files[..n];
      LoadInfosErr(root, files, fs, n + 1);
    } else {
      assert files[..n] == files;
    }
  }

  /** `get_snippets(path, search)`: the template files (the glob result, in
      the order the file system lists them) are ranked by `fuzzyfinder`
      against the search, and each match is loaded into a fresh snippet.
      `fs` maps each readable file to its front matter and body, as
      `frontmatter.load` reads them. Raises where a file cannot be read or
      does not lie under the root. */
  method GetSnippets(root: string, search: string, files: seq<string>, fs: map<string, (Header, string)>)
    returns (r: Result<seq<Snippet>, string>)
    ensures var found := Fuzzy.FuzzyFind(search, files, true);
      && (r.Err? <==> LoadInfos(root, found, fs).Err?)
      && (r.Err? ==> r.error == LoadInfos(root, found, fs).error)
      && (r.Ok? ==> |r.value| == |found|)
      && (r.Ok? ==> forall k :: 0 <= k < |found| ==> fresh(r.value[k]) && fresh(r.value[k].Vars()))
      && (r.Ok? ==> forall k :: 0 <= k < |found| ==> LoadedAs(r.value[k], found[k], fs, LoadInfos(root, found, fs).value[k]))
  {
    var found := Fuzzy.FuzzyFinder(search, files, true);
    r := LoadAll(root, found, fs);
  }

  /** The list comprehension of `get_snippets`: one fresh snippet per file,
      in order. */
  method LoadAll(root: string, found: seq<string>, fs: map<string, (Header, string)>)
    returns (r: Result<seq<Snippet>, string>)
    ensures r.Err? <==> LoadInfos(root, found, fs).Err?
    ensures r.Err? ==> r.error == LoadInfos(root, found, fs).error
    ensures r.Ok? ==> |r.value| == |found|
    ensures r.Ok? ==> forall k :: 0 <= k < |found| ==> fresh(r.value[k]) && fresh(r.value[k].Vars())
    ensures r.Ok? ==> forall k :: 0 <= k < |found| ==> LoadedAs(r.value[k], found[k], fs, LoadInfos(root, found, fs).value[k])
  {
    var out: seq<Snippet> := [];
    ghost var infos: seq<Info> := [];
    for i := 0 to |found|
      invariant |out| == i
      invariant LoadInfos(root, found[..i], fs) == Ok(infos)
      invariant forall k :: 0 <= k < i ==> fresh(out[k]) && fresh(out[k].Vars()) && LoadedAs(out[k], found[k], fs, infos[k])
    {
      var s := LoadNext(root, found, fs, i, infos);
      if s.Err? {
        return Err(s.error);
      }
      ghost var before := out;
      out := out + [s.value];
      infos := infos + [s.value.Attributes()];
      forall k | 0 <= k < i + 1
        ensures fresh(out[k]) && fresh(out[k].Vars()) && LoadedAs(out[k], found[k], fs, infos[k])
      {
        if k < i {
          assert out[k] == before[k];
        }
      }
    }
    assert found[..|found|] == found;
    return Ok(out);
  }

  /** `s` is the snippet of `file`: it has the attributes `info` and holds
      the file's `vars`. */
  ghost predicate LoadedAs(s: Snippet, file: string, fs: map<string, (Header, string)>, info: Info)
    reads s.variables
  {
    file in fs && s.Attributes() == info && s.Declares(fs[file].0)
  }

  /** One step of the comprehension: the snippet of `found[i]`, once the
      files before it have loaded into `infos`. */
  method LoadNext(root: string, found: seq<string>, fs: map<string, (Header, string)>, i: nat, ghost infos: seq<Info>)
    returns (r: Result<Snippet, string>)
    requires i < |found| && LoadInfos(root, found[..i], fs) == Ok(infos)
    ensures r.Err? ==> LoadInfos(root, found, fs) == Err(r.error)
    ensures r.Ok? ==> LoadInfos(root, found[..i + 1], fs) == Ok(infos + [r.value.Attributes()])
    ensures r.Ok? ==> fresh(r.value) && fresh(r.value.Vars()) && LoadedAs(r.value, found[i], fs, r.value.Attributes())
  {
    LoadInfosNext(root, found, fs, i, infos);
    r := Load(root, found[i], fs);
    if r.Err? {
      LoadInfosErr(root, found, fs, i + 1);
    }
  }

  /** `Snippet(file, path)` for one file of the comprehension. */
  method Load(root: string, file: string, fs: map<string, (Header, string)>) returns (r: Result<Snippet, string>)
    ensures file !in fs ==> r == Err("No such file or directory")
    ensures file in fs && Describe(file, root, fs[file].0, fs[file].1).Err? ==>
              r == Err(Describe(file, root, fs[file].0, fs[file].1).error)
    ensures file in fs && Describe(file, root, fs[file].0, fs[file].1).Ok? ==>
              r.Ok? && fresh(r.value) && r.value.Attributes() == Describe(file, root, fs[file].0, fs[file].1).value
    ensures r.Ok? ==> file in fs && r.value.Declares(fs[file].0)
    ensures r.Ok? ==> fresh(r.value.Vars())
  {
    if file !in fs {
      return Err("No such file or directory");
    }
    var loaded := fs[file];
    var info := Describe(file, root, loaded.0, loaded.1);
    if info.Err? {
      return Err(info.error);
    }
    var s := new Snippet(info.value, loaded.0);
    return Ok(s);
  }
}
