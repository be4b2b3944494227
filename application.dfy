/** The shared base controller of the dashboard's browser widgets: URL
    building under the dashboard prefix, the toast and alert notifiers and the
    flattening of a form into a key/value table. */
module Application {
  import opened Wrappers

  // ---------------------------------------------------------------------
  // Slash collapsing: the replacement `replace(/\/\/+/g, '/')` in prefix
  // ---------------------------------------------------------------------

  /** No '/' is immediately followed by another '/'. */
  predicate NoDoubleSlash(s: string) {
    forall i :: 0 <= i < |s| - 1 ==> !(s[i] == '/' && s[i + 1] == '/')
  }

  /** The number of '/' characters that start s. */
  function LeadingSlashes(s: string): (n: nat)
    ensures n <= |s|
    ensures forall i :: 0 <= i < n ==> s[i] == '/'
    ensures n < |s| ==> s[n] != '/'
  {
    if s != [] && s[0] == '/' then 1 + LeadingSlashes(s[1..]) else 0
  }

  /** The global replacement of the pattern `//+` by `/`. The regular
      expression is matched leftmost and greedily, so a match always starts at
      the beginning of a run of slashes and takes the whole run when the run
      has two or more slashes; every other character is copied. */
  function CollapseSlashes(s: string): (r: string)
    ensures |r| <= |s|
    ensures s != [] ==> r != [] && r[0] == s[0]
    ensures NoDoubleSlash(r)
    decreases |s|
  {
    if s == [] then []
    else
      var k := LeadingSlashes(s);
      if k >= 2 then "/" + CollapseSlashes(s[k..])
      else [s[0]] + CollapseSlashes(s[1..])
  }

  /** A second reading of the same replacement, used as a reference: delete
      every slash that is immediately followed by another slash. */
  function DropSlashBeforeSlash(s: string): string {
    if |s| < 2 then s
    else if s[0] == '/' && s[1] == '/' then DropSlashBeforeSlash(s[1..])
    else [s[0]] + DropSlashBeforeSlash(s[1..])
  }

  /** The characters of s other than '/', in order. */
  function WithoutSlashes(s: string): string {
    if s == [] then []
    else (if s[0] == '/' then [] else [s[0]]) + WithoutSlashes(s[1..])
  }

  /** A run of k >= 1 slashes at the head of s becomes one slash. */
  lemma {:induction false} DropCollapsesRun(s: string, k: nat)
    requires 1 <= k <= |s|
    requires forall i :: 0 <= i < k ==> s[i] == '/'
    requires k < |s| ==> s[k] != '/'
    ensures DropSlashBeforeSlash(s) == "/" + DropSlashBeforeSlash(s[k..])
    decreases k
  {
    assert s[0] == '/';
    if k == 1 {
      if |s| == 1 {
        assert s == "/" && s[1..] == [];
      } else {
        assert s[1] != '/';
      }
    } else {
      assert s[1] == '/';
      assert DropSlashBeforeSlash(s) == DropSlashBeforeSlash(s[1..]);
      var t := s[1..];
      assert forall i :: 0 <= i < k - 1 ==> t[i] == s[i + 1];
      assert k - 1 < |t| ==> t[k - 1] == s[k];
      DropCollapsesRun(t, k - 1);
      assert t[k - 1..] == s[k..];
    }
  }

  /** The regular-expression replacement and the reference agree on every
      string. */
  lemma {:induction false} CollapseMatchesReference(s: string)
    ensures CollapseSlashes(s) == DropSlashBeforeSlash(s)
    decreases |s|
  {
    if s != [] {
      var k := LeadingSlashes(s);
      if k >= 2 {
        DropCollapsesRun(s, k);
        CollapseMatchesReference(s[k..]);
      } else {
        CollapseMatchesReference(s[1..]);
      }
    }
  }

  /** A string without `//` is left exactly as it is. */
  lemma {:induction false} CollapseKeepsCleanString(s: string)
    requires NoDoubleSlash(s)
    ensures CollapseSlashes(s) == s
    decreases |s|
  {
    if s != [] {
      var k := LeadingSlashes(s);
      if |s| >= 2 {
        assert !(s[0] == '/' && s[1] == '/');
      }
      assert k < 2;
      assert NoDoubleSlash(s[1..]) by {
        forall i | 0 <= i < |s[1..]| - 1
          ensures !(s[1..][i] == '/' && s[1..][i + 1] == '/')
        {
          assert s[1..][i] == s[i + 1] && s[1..][i + 1] == s[i + 2];
        }
      }
      CollapseKeepsCleanString(s[1..]);
      assert s == [s[0]] + s[1..];
    }
  }

  /** The collapsed strings are exactly the strings without `//`. */
  lemma CollapseFixedPoints(s: string)
    ensures CollapseSlashes(s) == s <==> NoDoubleSlash(s)
  {
    if NoDoubleSlash(s) {
      CollapseKeepsCleanString(s);
    }
  }

  /** Collapsing twice is the same as collapsing once. */
  lemma CollapseIdempotent(s: string)
    ensures CollapseSlashes(CollapseSlashes(s)) == CollapseSlashes(s)
  {
    CollapseKeepsCleanString(CollapseSlashes(s));
  }

  lemma {:induction false} DropKeepsOtherCharacters(s: string)
    ensures WithoutSlashes(DropSlashBeforeSlash(s)) == WithoutSlashes(s)
    decreases |s|
  {
    if |s| >= 2 {
      DropKeepsOtherCharacters(s[1..]);
      if !(s[0] == '/' && s[1] == '/') {
        var r := [s[0]] + DropSlashBeforeSlash(s[1..]);
        assert r[1..] == DropSlashBeforeSlash(s[1..]);
      }
    }
  }

  /** Collapsing removes only slashes: every other character survives, in
      its original order. */
  lemma CollapseKeepsOtherCharacters(s: string)
    ensures WithoutSlashes(CollapseSlashes(s)) == WithoutSlashes(s)
  {
    CollapseMatchesReference(s);
    DropKeepsOtherCharacters(s);
  }

  lemma {:induction false} DropDoubledSlash(a: string, b: string)
    ensures DropSlashBeforeSlash(a + "//" + b) == DropSlashBeforeSlash(a + "/" + b)
    decreases |a|
  {
    var x, y := a + "//" + b, a + "/" + b;
    if a == [] {
      assert x[1..] == y;
    } else {
      assert x[0] == y[0] && x[1] == y[1];
      assert x[1..] == a[1..] + "//" + b;
      assert y[1..] == a[1..] + "/" + b;
      DropDoubledSlash(a[1..], b);
    }
  }

  // ---------------------------------------------------------------------
  // prefix(path)
  // ---------------------------------------------------------------------

  /** The parts of the page's `location` that prefix reads: `protocol`
      carries its colon ("https:"), `port` is "" for the scheme's default
      port. */
  datatype Location = Location(protocol: string, hostname: string, port: string)

  /** `${protocol}//${hostname}` followed by `:${port}` when the port is not
      empty. */
  function Origin(loc: Location): (o: string)
    ensures |o| == |loc.protocol| + 2 + |loc.hostname| + (if loc.port != "" then 1 + |loc.port| else 0)
    ensures o[..|loc.protocol| + 2] == loc.protocol + "//"
    ensures o[|loc.protocol| + 2..|loc.protocol| + 2 + |loc.hostname|] == loc.hostname
    ensures loc.port != "" ==> o[|o| - |loc.port| - 1..] == ":" + loc.port
  {
    loc.protocol + "//" + loc.hostname + (if loc.port != "" then ":" + loc.port else "")
  }

  /** prefix(path). `meta` is the content of the page's
      `<meta name="dashboard-prefix">` element, None when the page has no
      such element: the source then reads a property of null and throws, and
      no URL is produced. */
  function Prefix(meta: Option<string>, loc: Location, path: string): (url: Option<string>)
    ensures url.Some? <==> meta.Some?
    ensures url.Some? ==> |Origin(loc)| <= |url.value| && url.value[..|Origin(loc)|] == Origin(loc)
    ensures url.Some? && |Origin(loc)| <= |url.value| ==>
      var pathname := url.value[|Origin(loc)|..];
      && NoDoubleSlash(pathname)
      && WithoutSlashes(pathname) == WithoutSlashes(meta.value + path)
      && (NoDoubleSlash(meta.value + path) ==> pathname == meta.value + path)
  {
    match meta
    case None => None
    case Some(p) =>
      var pathname := CollapseSlashes(p + path);
      var url := Origin(loc) + pathname;
      assert url[|Origin(loc)|..] == pathname;
      CollapseKeepsOtherCharacters(p + path);
      if NoDoubleSlash(p + path) then
        CollapseKeepsCleanString(p + path);
        Some(url)
      else
        Some(url)
  }

  /** The port appears, after a colon, exactly when it is not empty. */
  lemma PrefixPort(meta: string, loc: Location, path: string)
    ensures loc.port == "" ==>
      Prefix(Some(meta), loc, path) == Some(loc.protocol + "//" + loc.hostname + CollapseSlashes(meta + path))
    ensures loc.port != "" ==>
      Prefix(Some(meta), loc, path) == Some(loc.protocol + "//" + loc.hostname + ":" + loc.port + CollapseSlashes(meta + path))
  {
    var c := CollapseSlashes(meta + path);
    if loc.port != "" {
      assert Origin(loc) + c == loc.protocol + "//" + loc.hostname + ":" + loc.port + c;
    } else {
      assert Origin(loc) + c == loc.protocol + "//" + loc.hostname + c;
    }
  }

  /** A prefix configured with a trailing slash and one configured without
      give the same URL for a path that starts with a slash. */
  lemma PrefixTrailingSlashIrrelevant(meta: string, loc: Location, path: string)
    ensures Prefix(Some(meta + "/"), loc, "/" + path) == Prefix(Some(meta), loc, "/" + path)
  {
    assert meta + "/" + ("/" + path) == meta + "//" + path;
    assert meta + ("/" + path) == meta + "/" + path;
    DropDoubledSlash(meta, path);
    CollapseMatchesReference(meta + "//" + path);
    CollapseMatchesReference(meta + "/" + path);
  }

  // ---------------------------------------------------------------------
  // toast and alert
  // ---------------------------------------------------------------------

  /** The severity toast and alert use when the caller gives none. */
  const DefaultSeverity := "warning"

  /** What is handed to the page's toast controller. */
  datatype Notice =
    | ToastNotice(message: string, severity: string)
    | AlertNotice(title: string, message: string, severity: string)
  {
    function Severity(): string {
      match this
      case ToastNotice(_, s) => s
      case AlertNotice(_, _, s) => s
    }
  }

  /** toast(message, type): `severity` is None when the caller leaves the
      argument out. */
  function Toast(message: string, severity: Option<string>): (n: Notice)
    ensures n.ToastNotice? && n.message == message
    ensures severity.None? ==> n.Severity() == DefaultSeverity
    ensures severity.Some? ==> n.Severity() == severity.value
  {
    ToastNotice(message, match severity case Some(s) => s case None => DefaultSeverity)
  }

  /** alert(title, message, type), with the same default as toast. */
  function Alert(title: string, message: string, severity: Option<string>): (n: Notice)
    ensures n.AlertNotice? && n.title == title && n.message == message
    ensures severity.None? ==> n.Severity() == DefaultSeverity
    ensures severity.Some? ==> n.Severity() == severity.value
  {
    AlertNotice(title, message, match severity case Some(s) => s case None => DefaultSeverity)
  }

  // ---------------------------------------------------------------------
  // formToObject(elem)
  // ---------------------------------------------------------------------

  /** A value of the table formToObject builds: a key seen once holds its
      value, a key seen again holds an array of all its values. */
  datatype Field<V> = Scalar(value: V) | Many(values: seq<V>)

  /** The values a field holds, in order. */
  function Values<V>(f: Field<V>): seq<V> {
    match f
    case Scalar(v) => [v]
    case Many(vs) => vs
  }

  /** The keys occurring among the form's entries. */
  function KeysOf<V>(entries: seq<(string, V)>): set<string> {
    set i | 0 <= i < |entries| :: entries[i].0
  }

  /** The values entered under key, in the order of the entries. */
  function ValuesFor<V>(entries: seq<(string, V)>, key: string): (vs: seq<V>)
    ensures |vs| <= |entries|
    ensures vs != [] <==> key in KeysOf(entries)
  {
    if entries == [] then []
    else
      assert entries == [entries[0]] + entries[1..];
      (if entries[0].0 == key then [entries[0].1] else []) + ValuesFor(entries[1..], key)
  }

  /** One more entry adds its value at the end of its own key's values and
      leaves every other key's values as they were. */
  lemma {:induction false} ValuesForAppend<V>(entries: seq<(string, V)>, key: string, value: V, k: string)
    ensures ValuesFor(entries + [(key, value)], k)
         == ValuesFor(entries, k) + (if key == k then [value] else [])
  {
    if entries != [] {
      assert (entries + [(key, value)])[1..] == entries[1..] + [(key, value)];
      ValuesForAppend(entries[1..], key, value, k);
    }
  }

  /** output is the table formToObject builds from entries: its keys are
      the keys entered, each key holds its values in entry order, as a scalar
      exactly when it was entered once. */
  ghost predicate Represents<V>(output: map<string, Field<V>>, entries: seq<(string, V)>) {
    && output.Keys == KeysOf(entries)
    && (forall k :: k in output ==> Values(output[k]) == ValuesFor(entries, k))
    && (forall k :: k in output ==> (output[k].Scalar? <==> |ValuesFor(entries, k)| == 1))
  }

  /** The forEach callback of formToObject: store the value under a new key,
      or else turn a scalar into a one-element array and push the value. */
  method Absorb<V>(output: map<string, Field<V>>, key: string, value: V)
    returns (updated: map<string, Field<V>>)
    ensures updated.Keys == output.Keys + {key}
    ensures forall k :: k in output && k != key ==> updated[k] == output[k]
    ensures key !in output ==> updated[key] == Scalar(value)
    ensures key in output ==> updated[key] == Many(Values(output[key]) + [value])
  {
    if key !in output {
      updated := output[key := Scalar(value)];
      return;
    }
    var current := output[key];
    updated := output;
    if !current.Many? {
      current := Many([current.value]);
      updated := updated[key := current];
    }
    updated := updated[key := Many(current.values + [value])];
  }

  lemma KeysOfAppend<V>(entries: seq<(string, V)>, key: string, value: V)
    ensures KeysOf(entries + [(key, value)]) == KeysOf(entries) + {key}
  {
    var more := entries + [(key, value)];
    assert more[|entries|].0 == key;
    forall k | k in KeysOf(more) ensures k in KeysOf(entries) + {key} {
      var i :| 0 <= i < |more| && more[i].0 == k;
      if i < |entries| { assert entries[i].0 == k; }
    }
    forall k | k in KeysOf(entries) ensures k in KeysOf(more) {
      var i :| 0 <= i < |entries| && entries[i].0 == k;
      assert more[i].0 == k;
    }
  }

  /** One application of the callback extends the table of entries to the
      table of entries + [(key, value)]. */
  lemma AbsorbExtends<V>(output: map<string, Field<V>>, updated: map<string, Field<V>>,
                         entries: seq<(string, V)>, key: string, value: V)
    requires Represents(output, entries)
    requires updated.Keys == output.Keys + {key}
    requires forall k :: k in output && k != key ==> updated[k] == output[k]
    requires key !in output ==> updated[key] == Scalar(value)
    requires key in output ==> updated[key] == Many(Values(output[key]) + [value])
    ensures Represents(updated, entries + [(key, value)])
  {
    KeysOfAppend(entries, key, value);
    forall k | k in updated
      ensures Values(updated[k]) == ValuesFor(entries + [(key, value)], k)
      ensures updated[k].Scalar? <==> |ValuesFor(entries + [(key, value)], k)| == 1
    {
      ValuesForAppend(entries, key, value, k);
    }
  }

  /** formToObject over the form's entries, in FormData order. */
  method FormToObject<V>(entries: seq<(string, V)>) returns (output: map<string, Field<V>>)
    ensures output.Keys == KeysOf(entries)
    ensures forall k :: k in output ==> Values(output[k]) == ValuesFor(entries, k)
    ensures forall k :: k in output ==> (output[k].Scalar? <==> |ValuesFor(entries, k)| == 1)
  {
    output := map[];
    var i := 0;
    ghost var done: seq<(string, V)> := [];
    assert KeysOf(done) == {};
    while i < |entries|
      invariant 0 <= i <= |entries|
      invariant done == entries[..i]
      invariant Represents(output, done)
    {
      var (key, value) := entries[i];
      assert entries[..i + 1] == done + [(key, value)];
      var updated := Absorb(output, key, value);
      AbsorbExtends(output, updated, done, key, value);
      output, done, i := updated, done + [(key, value)], i + 1;
    }
    assert done == entries;
  }
}
