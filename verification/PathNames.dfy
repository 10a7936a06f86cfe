/** Splitting a path into its directory and its last name (split_path_filename of directory.c). */
module PathNames {
  import opened Layout
  import opened DirectoryEntries

  const SLASH: Byte := 47

  /// What strtok_r does

  function SkipSlashes(p: CName): (r: CName)
    ensures |r| <= |p| && (r != [] ==> r[0] != SLASH)
  {
    if p != [] && p[0] == SLASH then SkipSlashes(p[1..]) else p
  }

  function Head(p: CName): (r: CName)
    ensures r <= p && SLASH !in r && (|r| < |p| ==> p[|r|] == SLASH)
    ensures p != [] && p[0] != SLASH ==> r != []
  {
    if p == [] || p[0] == SLASH then [] else [p[0]] + Head(p[1..])
  }

  /** The names along a path. */
  function Tokens(p: CName): (r: seq<CName>)
    ensures forall k :: 0 <= k < |r| ==> r[k] != [] && SLASH !in r[k]
    decreases |p|
  {
    var q := SkipSlashes(p);
    if q == [] then [] else [Head(q)] + Tokens(q[|Head(q)|..])
  }

  function Joined(names: seq<CName>): CName {
    if names == [] then [] else Joined(names[..|names| - 1]) + names[|names| - 1] + [SLASH]
  }

  function Root(p: CName): CName {
    if p != [] && p[0] == SLASH then [SLASH] else []
  }

  function FileNameOf(p: CName): CName {
    var t := Tokens(p);
    if t == [] then [] else t[|t| - 1]
  }

  function DirectoryOf(p: CName): CName {
    var t := Tokens(p);
    Root(p) + if t == [] then [] else Joined(t[..|t| - 1])
  }

  lemma TokensStep(p: CName)
    requires p != [] && p[0] != SLASH
    ensures |Head(p)| <= |p| && Tokens(p) == [Head(p)] + Tokens(SkipSlashes(p[|Head(p)|..]))
  {
    TokensSkip(p[|Head(p)|..]);
  }

  lemma JoinedLast(names: seq<CName>)
    requires names != []
    ensures Joined(names) == Joined(names[..|names| - 1]) + names[|names| - 1] + [SLASH]
  {
  }

  /** split_path_filename */
  method SplitPath(path: CName) returns (directory: CName, filename: CName)
    ensures directory == DirectoryOf(path) && filename == FileNameOf(path)
  {
    hide Tokens, SkipSlashes, Head, Joined, DirectoryOf, FileNameOf;
    directory := if |path| > 0 && path[0] == SLASH then [SLASH] else [];
    var last: CName := [];
    TokensSkip(path);
    var rest := SkipSlashes(path);
    ghost var names: seq<CName> := [];
    while rest != []
      invariant rest == [] || rest[0] != SLASH
      invariant Tokens(path) == names + Tokens(rest)
      invariant names == [] ==> last == [] && directory == Root(path)
      invariant names != [] ==> last == names[|names| - 1] && last != [] && directory == Root(path) + Joined(names[..|names| - 1])
      decreases |rest|
    {
      TokensStep(rest);
      var token := Head(rest);
      if |last| > 0 {
        JoinedLast(names);
        directory := directory + last + [SLASH];
      } else {
        NoNames();
      }
      assert (names + [token])[..|names|] == names;
      last, names, rest := token, names + [token], SkipSlashes(rest[|token|..]);
    }
    NoNames();
    assert Tokens(path) == names;
    PartsOf(path);
    filename := last;
  }

  lemma PartsOf(path: CName)
    ensures var t := Tokens(path);
            if t == [] then DirectoryOf(path) == Root(path) && FileNameOf(path) == []
            else DirectoryOf(path) == Root(path) + Joined(t[..|t| - 1]) && FileNameOf(path) == t[|t| - 1]
  {
    hide Tokens, Joined;
    assert Root(path) + [] == Root(path);
  }

  lemma NoNames()
    ensures Joined([]) == [] && Tokens([]) == []
  {
  }

  lemma {:induction false} SkipTwice(p: CName)
    ensures SkipSlashes(SkipSlashes(p)) == SkipSlashes(p)
  {
  }

  lemma TokensSkip(p: CName)
    ensures Tokens(SkipSlashes(p)) == Tokens(p)
  {
    SkipTwice(p);
  }

  /** Putting a name and a slash in front of a path. */
  lemma {:induction false} HeadOfName(name: CName, rest: CName)
    requires SLASH !in name && (rest == [] || rest[0] == SLASH)
    ensures Head(name + rest) == name
  {
    if name != [] {
      assert (name + rest)[1..] == name[1..] + rest;
      HeadOfName(name[1..], rest);
    }
  }

  lemma TokensOfName(name: CName, rest: CName)
    requires name != [] && SLASH !in name && (rest == [] || rest[0] == SLASH)
    ensures Tokens(name + rest) == [name] + Tokens(rest)
  {
    HeadOfName(name, rest);
    assert (name + rest)[|name|..] == rest;
  }

  lemma LeadingSlash(p: CName)
    ensures Tokens([SLASH] + p) == Tokens(p)
  {
    assert ([SLASH] + p)[1..] == p;
    TokensSkip(p);
    TokensSkip([SLASH] + p);
  }

  lemma {:induction false} TokensOfJoined(names: seq<CName>, last: CName)
    requires forall k :: 0 <= k < |names| ==> names[k] != [] && SLASH !in names[k]
    requires SLASH !in last
    ensures Tokens(Joined(names) + last) == names + (if last == [] then [] else [last])
  {
    hide Tokens, Joined, Head, SkipSlashes;
    NoNames();
    JoinedFront(names);
    if names == [] {
      assert Joined(names) + last == last == last + [];
      if last != [] {
        TokensOfName(last, []);
      }
    } else {
      var tail := Joined(names[1..]) + last;
      assert Joined(names) + last == names[0] + ([SLASH] + tail);
      TokensOfName(names[0], [SLASH] + tail);
      LeadingSlash(tail);
      TokensOfJoined(names[1..], last);
    }
  }

  lemma {:induction false} JoinedFront(names: seq<CName>)
    ensures names != [] ==> Joined(names) == names[0] + [SLASH] + Joined(names[1..])
  {
    if |names| > 1 {
      var init := names[..|names| - 1];
      JoinedFront(init);
      assert init[1..] == names[1..][..|names| - 2];
    }
  }

  /** The names once more, with single slashes between them. */
  function Plain(t: seq<CName>): CName {
    if t == [] then [] else Joined(t[..|t| - 1]) + t[|t| - 1]
  }

  lemma TokensOfPlain(t: seq<CName>)
    requires forall k :: 0 <= k < |t| ==> t[k] != [] && SLASH !in t[k]
    ensures Tokens(Plain(t)) == t && (Plain(t) == [] || Plain(t)[0] != SLASH)
  {
    hide Tokens, Joined;
    NoNames();
    if t != [] {
      assert t == t[..|t| - 1] + [t[|t| - 1]];
      TokensOfJoined(t[..|t| - 1], t[|t| - 1]);
      JoinedFront(t[..|t| - 1]);
    }
  }

  lemma SplitIsPlain(path: CName)
    ensures DirectoryOf(path) + FileNameOf(path) == Root(path) + Plain(Tokens(path))
  {
    hide Tokens, Joined;
  }

  /** The two parts together lead along the same names, from the same place; the last name has no slash. */
  lemma SplitKeepsPath(path: CName)
    ensures Tokens(DirectoryOf(path) + FileNameOf(path)) == Tokens(path)
    ensures Root(DirectoryOf(path) + FileNameOf(path)) == Root(path)
    ensures SLASH !in FileNameOf(path)
  {
    hide Tokens, Joined, Plain, DirectoryOf;
    var plain := Plain(Tokens(path));
    SplitIsPlain(path);
    TokensOfPlain(Tokens(path));
    LeadingSlash(plain);
    assert [] + plain == plain;
  }

  /** A name without slashes is its own last name. */
  lemma PlainName(name: CName)
    requires SLASH !in name
    ensures FileNameOf(name) == name && DirectoryOf(name) == []
  {
    if name != [] {
      TokensOfName(name, []);
      assert name + [] == name;
    }
  }

  /// The parts of a path put together from names

  lemma HeadRest(p: CName)
    requires p != [] && p[0] != SLASH
    ensures var h := Head(p);
            h != [] && SLASH !in h && |h| <= |p| && p == h + p[|h|..] && (p[|h|..] == [] || p[|h|..][0] == SLASH)
  {
  }

  /** The names along two paths with a slash between them. */
  lemma {:induction false} TokensAppend(p: CName, q: CName)
    ensures Tokens(p + [SLASH] + q) == Tokens(p) + Tokens(q)
    decreases |p|
  {
    hide Tokens, Head;
    NoNames();
    LeadingSlash(q);
    if p == [] {
      assert p + [SLASH] + q == [SLASH] + q;
    } else if p[0] == SLASH {
      assert p == [SLASH] + p[1..] && p + [SLASH] + q == [SLASH] + (p[1..] + [SLASH] + q);
      LeadingSlash(p[1..]);
      LeadingSlash(p[1..] + [SLASH] + q);
      TokensAppend(p[1..], q);
    } else {
      HeadRest(p);
      var h, rest := Head(p), p[|Head(p)|..];
      assert p + [SLASH] + q == h + (rest + [SLASH] + q);
      TokensOfName(h, rest);
      TokensOfName(h, rest + [SLASH] + q);
      TokensAppend(rest, q);
    }
  }

  lemma {:induction false} OnlySlashes(slashes: CName)
    requires forall k :: 0 <= k < |slashes| ==> slashes[k] == SLASH
    ensures Tokens(slashes) == [] && FileNameOf(slashes) == []
  {
    NoNames();
    if slashes != [] {
      assert slashes == [SLASH] + slashes[1..];
      LeadingSlash(slashes[1..]);
      OnlySlashes(slashes[1..]);
    }
  }

  lemma DirectoryTokens(path: CName)
    ensures Tokens(path) != [] ==> Tokens(DirectoryOf(path)) == Tokens(path)[..|Tokens(path)| - 1]
    ensures Tokens(path) == [] ==> Tokens(DirectoryOf(path)) == []
  {
    hide Tokens, Joined;
    NoNames();
    var t := Tokens(path);
    var names := if t == [] then [] else t[..|t| - 1];
    TokensOfJoined(names, []);
    assert Joined(names) + [] == Joined(names) == [] + Joined(names);
    LeadingSlash(Joined(names));
  }

  /** The last name of a path is what stands behind its last slash, but for slashes at the end, and its directory
      leads along the names before that. */
  lemma LastName(p: CName, name: CName, slashes: CName)
    requires name != [] && SLASH !in name && forall k :: 0 <= k < |slashes| ==> slashes[k] == SLASH
    ensures FileNameOf(p + [SLASH] + (name + slashes)) == name && FileNameOf(name + slashes) == name
    ensures Tokens(DirectoryOf(p + [SLASH] + (name + slashes))) == Tokens(p) && Tokens(DirectoryOf(name + slashes)) == []
  {
    hide Tokens, DirectoryOf;
    OnlySlashes(slashes);
    TokensOfName(name, slashes);
    TokensAppend(p, name + slashes);
    DirectoryTokens(p + [SLASH] + (name + slashes));
    DirectoryTokens(name + slashes);
  }

  /** A path is followed from the root exactly if it begins with the byte 47, and so is its directory. */
  lemma RootIs(path: CName)
    ensures Root(path) == (if path != [] && path[0] == 47 then [47] else [])
    ensures Root(DirectoryOf(path)) == Root(path)
  {
    hide Tokens, Joined;
    if Tokens(path) != [] {
      var names := Tokens(path)[..|Tokens(path)| - 1];
      JoinedFront(names);
      NoNames();
    }
  }
}
