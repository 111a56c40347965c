/** Path strings and their components, as the archive tree splits and joins them. */
module PathNames {

  const NUL := '\0'

  predicate HasSlash(s: string) {
    '/' in s
  }

  /** The index of the first slash. */
  function FirstSlash(s: string): (i: nat)
    requires HasSlash(s)
    ensures i < |s| && s[i] == '/' && '/' !in s[..i]
  {
    if s[0] == '/' then 0 else
      assert s == [s[0]] + s[1..];
      assert s[..FirstSlash(s[1..]) + 1] == [s[0]] + s[1..][..FirstSlash(s[1..])];
      1 + FirstSlash(s[1..])
  }

  /** What insert creates nodes for: the parts between slashes, empty ones included. */
  function Components(s: string): (c: seq<string>)
    ensures |c| >= 1
    ensures forall k :: 0 <= k < |c| ==> '/' !in c[k]
    decreases |s|
  {
    if HasSlash(s) then [s[..FirstSlash(s)]] + Components(s[FirstSlash(s) + 1..]) else [s]
  }

  lemma ComponentsStep(s: string)
    ensures Components(s) == if HasSlash(s) then [s[..FirstSlash(s)]] + Components(s[FirstSlash(s) + 1..]) else [s]
  {
  }

  /** What find looks for: the empty rest of a path is the node itself. */
  function FindNames(s: string): seq<string>
    decreases |s|
  {
    if s == "" then []
    else if HasSlash(s) then [s[..FirstSlash(s)]] + FindNames(s[FirstSlash(s) + 1..])
    else [s]
  }

  function Last(c: seq<string>): string
    requires c != []
  {
    c[|c| - 1]
  }

  /** find differs from insert in a trailing empty component only. */
  lemma {:induction false} FindNamesExact(s: string)
    ensures FindNames(s) == if Last(Components(s)) == "" then Components(s)[..|Components(s)| - 1] else Components(s)
    decreases |s|
  {
    if s == "" {
      assert Components(s) == [""];
    } else if HasSlash(s) {
      var rest := s[FirstSlash(s) + 1..];
      FindNamesExact(rest);
      assert Components(s)[1..] == Components(rest);
    }
  }

  function Join(names: seq<string>): string {
    if names == [] then ""
    else if |names| == 1 then names[0]
    else Join(names[..|names| - 1]) + "/" + names[|names| - 1]
  }

  /** The same, put together from the front. */
  lemma {:induction false} JoinFront(names: seq<string>)
    requires |names| >= 2
    ensures Join(names) == names[0] + "/" + Join(names[1..])
  {
    var front := names[..|names| - 1];
    if |names| == 2 {
      assert front == [names[0]] && names[1..] == [names[1]];
    } else {
      JoinFront(front);
      assert names[1..][..|names| - 2] == front[1..];
      var last := names[|names| - 1];
      assert names[1..][|names| - 2] == last;
      assert Join(names[1..]) == Join(front[1..]) + "/" + last;
      assert Join(names) == (names[0] + "/" + Join(front[1..])) + "/" + last;
      assert (names[0] + "/" + Join(front[1..])) + "/" + last == names[0] + "/" + (Join(front[1..]) + "/" + last);
    }
  }

  lemma SlashAfter(name: string, rest: string)
    requires '/' !in name
    ensures HasSlash(name + "/" + rest) && FirstSlash(name + "/" + rest) == |name|
    ensures (name + "/" + rest)[..|name|] == name && (name + "/" + rest)[|name| + 1..] == rest
  {
    var s := name + "/" + rest;
    assert s[..|name|] == name && s[|name|] == '/';
    FirstSlashIs(s, |name|);
  }

  lemma {:induction false} FirstSlashIs(s: string, i: nat)
    requires i < |s| && s[i] == '/' && '/' !in s[..i]
    ensures HasSlash(s) && FirstSlash(s) == i
  {
    if i == 0 {
    } else {
      assert s[..i][0] == s[0];
      assert s[..i] == [s[0]] + s[1..][..i - 1];
      FirstSlashIs(s[1..], i - 1);
    }
  }

  /** Splitting undoes joining. */
  lemma {:induction false} ComponentsOfJoin(names: seq<string>)
    requires names != [] && forall k :: 0 <= k < |names| ==> '/' !in names[k]
    ensures Components(Join(names)) == names
    decreases |names|
  {
    if |names| == 1 {
      assert names == [names[0]];
    } else {
      JoinFront(names);
      SlashAfter(names[0], Join(names[1..]));
      ComponentsOfJoin(names[1..]);
      assert names == [names[0]] + names[1..];
    }
  }

  /** Joining undoes splitting. */
  lemma {:induction false} JoinOfComponents(s: string)
    ensures Join(Components(s)) == s
    decreases |s|
  {
    ComponentsStep(s);
    if HasSlash(s) {
      var name, rest := s[..FirstSlash(s)], s[FirstSlash(s) + 1..];
      JoinOfComponents(rest);
      JoinFront([name] + Components(rest));
      assert ([name] + Components(rest))[1..] == Components(rest);
      SplitAt(s, FirstSlash(s));
    } else {
      assert Join([s]) == s;
    }
  }

  lemma SplitAt(s: string, i: nat)
    requires i < |s| && s[i] == '/'
    ensures s == s[..i] + "/" + s[i + 1..]
  {
  }

  /** Different paths have different components. */
  lemma ComponentsInjective(s: string, t: string)
    requires Components(s) == Components(t)
    ensures s == t
  {
    JoinOfComponents(s);
    JoinOfComponents(t);
  }

  // ---------- C strings ----------

  /** The characters of a buffer from start up to the next NUL. */
  function CString(b: seq<char>, start: nat): (s: string)
    ensures start <= |b| ==> start + |s| <= |b|
    ensures NUL !in s
    decreases |b| - start
  {
    if start < |b| && b[start] != NUL then [b[start]] + CString(b, start + 1) else ""
  }

  predicate Terminated(b: seq<char>, start: nat) {
    start + |CString(b, start)| < |b|
  }

  lemma {:induction false} CStringAt(b: seq<char>, start: nat, k: nat)
    requires Terminated(b, start) && k <= |CString(b, start)|
    ensures b[start + k] == if k < |CString(b, start)| then CString(b, start)[k] else NUL
    ensures CString(b, start + k) == CString(b, start)[k..]
    decreases |b| - start
  {
    if k == 0 {
    } else {
      CStringAt(b, start + 1, k - 1);
    }
  }

  /** A string is determined by its characters and the NUL behind them. */
  lemma {:induction false} CStringIs(b: seq<char>, start: nat, s: string)
    requires start + |s| < |b| && b[start..start + |s|] == s && b[start + |s|] == NUL && NUL !in s
    ensures CString(b, start) == s && Terminated(b, start)
    decreases |s|
  {
    if s == "" {
    } else {
      assert b[start] == s[0] && s[0] in s;
      assert b[start + 1..start + |s|] == s[1..];
      CStringIs(b, start + 1, s[1..]);
    }
  }

  /** The buffer with the slashes of its string cut, one after the other. */
  function SlashesCut(b: seq<char>, start: nat): (c: seq<char>)
    ensures |c| == |b|
    decreases |b| - start
  {
    var s := CString(b, start);
    if start < |b| && HasSlash(s) then SlashesCut(b[start + FirstSlash(s) := NUL], start + FirstSlash(s) + 1) else b
  }

  lemma SlashesCutStep(b: seq<char>, start: nat)
    requires Terminated(b, start)
    ensures var s := CString(b, start);
      SlashesCut(b, start)
      == if HasSlash(s) then SlashesCut(b[start + FirstSlash(s) := NUL], start + FirstSlash(s) + 1) else b
  {
    hide CString, FirstSlash;
  }
}
