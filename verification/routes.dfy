/**
 * The route table of the blog server: which request line is answered by
 * which file. `filenames_to_paths` derives one key per page in the pages
 * directory, and `main` adds the root route on top.
 */
module Routes {
  import opened Wrappers
  import opened Strings
  import opened Tables

  /** Request line to the path of the file that answers it. */
  type Table = map<string, string>

  /** A directory entry: its file name and its full path as displayed. */
  datatype Entry = Entry(name: string, path: string)

  /**
   * What `fs::read_dir` yields: `None` when the directory cannot be read;
   * otherwise the entries in iteration order, `None` where reading one failed.
   */
  type Listing = Option<seq<Option<Entry>>>

  const KeyPrefix := "GET /"
  const KeySuffix := " HTTP/1.1"
  const PageExtension := ".html"
  const RootKey := "GET / HTTP/1.1"
  const IndexPage := "public/index.html"

  /** The file name with every `.html` removed, left to right, as `replace(".html", "")` does. */
  function StripExtension(name: string): string {
    ReplaceAll(name, PageExtension, "")
  }

  /** Stripping leaves a name unchanged exactly when it holds no `.html`, and otherwise shortens it. */
  lemma StripExtensionIdentity(name: string)
    ensures StripExtension(name) == name <==> !Contains(name, PageExtension)
    ensures Contains(name, PageExtension) ==> |StripExtension(name)| < |name|
  {
  }

  /** The text between `GET /` and ` HTTP/1.1` when a line has exactly that shape. */
  function KeyTarget(line: string): (r: Option<string>)
    ensures r.Some? ==> line == KeyPrefix + r.value + KeySuffix
  {
    if |line| >= |KeyPrefix| + |KeySuffix| && KeyPrefix <= line && line[|line| - |KeySuffix|..] == KeySuffix
    then
      var target := line[|KeyPrefix|..|line| - |KeySuffix|];
      assert line == line[..|KeyPrefix|] + target + line[|line| - |KeySuffix|..];
      Some(target)
    else None
  }

  /** Every line of the form `GET /<t> HTTP/1.1` has target `t`. */
  lemma KeyTargetOfShape(t: string)
    ensures KeyTarget(KeyPrefix + t + KeySuffix) == Some(t)
  {
    var line := KeyPrefix + t + KeySuffix;
    assert line[..|KeyPrefix|] == KeyPrefix;
    assert line[|line| - |KeySuffix|..] == KeySuffix;
    assert line[|KeyPrefix|..|line| - |KeySuffix|] == t;
  }

  /**
   * The route key a file name derives: `GET /`, the file name with every
   * `.html` removed, then ` HTTP/1.1`. Its target is the stripped name.
   */
  function DeriveKey(name: string): string {
    KeyPrefix + StripExtension(name) + KeySuffix
  }

  /** Every derived key starts with `GET /`, ends with ` HTTP/1.1`, and has the stripped name between. */
  lemma DeriveKeyShape(name: string)
    ensures KeyPrefix <= DeriveKey(name)
    ensures KeyTarget(DeriveKey(name)) == Some(StripExtension(name))
  {
    KeyTargetOfShape(StripExtension(name));
  }

  /** Two file names share a key exactly when they agree once `.html` is removed. */
  lemma DeriveKeyCollision(a: string, b: string)
    ensures DeriveKey(a) == DeriveKey(b) <==> StripExtension(a) == StripExtension(b)
  {
    DeriveKeyShape(a);
    DeriveKeyShape(b);
  }

  /** A name without `.html` appears verbatim in its key. */
  lemma DeriveKeyOfPlainName(name: string)
    requires !Contains(name, PageExtension)
    ensures DeriveKey(name) == KeyPrefix + name + KeySuffix
  {
  }

  /** A name without a dot holds no `.html`. */
  lemma DotFreeName(name: string)
    requires '.' !in name
    ensures !Contains(name, PageExtension)
  {
    forall i: nat | i <= |name|
      ensures !OccursAt(name, PageExtension, i)
    {
      if i < |name| {
        MismatchAt(name, PageExtension, i);
      }
    }
  }

  /**
   * An occurrence of `.html` that starts inside `base` but runs past its end
   * would need a second dot inside the extension: none exists.
   */
  lemma NoStraddle(base: string, i: nat)
    requires !Contains(base, PageExtension) && i < |base|
    ensures !OccursAt(base + PageExtension, PageExtension, i)
  {
    var s := base + PageExtension;
    if i + |PageExtension| <= |base| {
      assert s[i..i + |PageExtension|] == base[i..i + |PageExtension|];
      assert !OccursAt(base, PageExtension, i);
    } else {
      var k := |base| - i;
      assert s[i + k] == '.';
      MismatchAtOffset(s, PageExtension, i, k);
    }
  }

  lemma {:induction false} ScanPlainPage(base: string, i: nat)
    requires !Contains(base, PageExtension) && i <= |base|
    ensures ScanFrom(base + PageExtension, PageExtension, "", i) == base[i..]
    decreases |base| - i
  {
    var s := base + PageExtension;
    if i < |base| {
      assert s[i] == base[i];
      NoStraddle(base, i);
      ScanPlainPage(base, i + 1);
      assert base[i..] == [base[i]] + base[i + 1..];
    } else {
      assert s[i..i + |PageExtension|] == PageExtension;
      assert ScanFrom(s, PageExtension, "", |s|) == [];
    }
  }

  /**
   * A page name made of a base without `.html` and the extension derives
   * the key of the base: `v1.2.html` that of `/v1.2`, `about.html` that of
   * `/about`.
   */
  lemma DeriveKeyOfPage(base: string)
    requires !Contains(base, PageExtension)
    ensures DeriveKey(base + PageExtension) == KeyPrefix + base + KeySuffix
  {
    ScanPlainPage(base, 0);
  }

  /** `about.html` derives the key of `/about`. */
  lemma DeriveKeyAbout()
    ensures DeriveKey("about.html") == "GET /about HTTP/1.1"
  {
    DotFreeName("about");
    DeriveKeyOfPage("about");
    assert "about" + PageExtension == "about.html";
    assert KeyPrefix + "about" + KeySuffix == "GET /about HTTP/1.1";
  }

  /** A dotted name such as `v1.2.html` loses only its final extension. */
  lemma DeriveKeyVersioned()
    ensures DeriveKey("v1.2.html") == "GET /v1.2 HTTP/1.1"
  {
    assert !Contains("v1.2", PageExtension) by {
      forall i: nat | i <= 4
        ensures !OccursAt("v1.2", PageExtension, i)
      {
      }
    }
    DeriveKeyOfPage("v1.2");
    assert "v1.2" + PageExtension == "v1.2.html";
    assert KeyPrefix + "v1.2" + KeySuffix == "GET /v1.2 HTTP/1.1";
  }

  /** The bare name `about` derives the same key as `about.html`. */
  lemma DeriveKeyBareAbout()
    ensures DeriveKey("about") == "GET /about HTTP/1.1"
  {
    DotFreeName("about");
    DeriveKeyOfPlainName("about");
    assert KeyPrefix + "about" + KeySuffix == "GET /about HTTP/1.1";
  }

  /** A page named `.html` alone derives the root key. */
  lemma DeriveKeyOfBareExtension()
    ensures DeriveKey(".html") == RootKey
  {
    DotFreeName("");
    DeriveKeyOfPage("");
    assert "" + PageExtension == ".html";
  }

  /** The insert `filenames_to_paths` makes for one entry. */
  function RoutePair(e: Entry): (string, string) {
    (DeriveKey(e.name), e.path)
  }

  function RoutePairs(entries: seq<Entry>): (pairs: seq<(string, string)>)
    ensures |pairs| == |entries|
    ensures forall i :: 0 <= i < |entries| ==> pairs[i] == RoutePair(entries[i])
  {
    seq(|entries|, i requires 0 <= i < |entries| => RoutePair(entries[i]))
  }

  lemma RoutePairsSnoc(entries: seq<Entry>, e: Entry)
    ensures RoutePairs(entries + [e]) == RoutePairs(entries) + [RoutePair(e)]
  {
  }

  /** The table `filenames_to_paths` fills: each entry inserted under its derived key, in listing order. */
  function BuildTable(entries: seq<Entry>): Table {
    InsertAll(RoutePairs(entries))
  }

  /** No entry after `i` derives the same key as entry `i`. */
  predicate IsLastFor(entries: seq<Entry>, i: nat)
    requires i < |entries|
  {
    forall j :: i < j < |entries| ==> DeriveKey(entries[j].name) != DeriveKey(entries[i].name)
  }

  /**
   * The built table holds exactly the derived keys of the entries, and under
   * each key the path of the last entry deriving it: a later entry
   * overwrites an earlier one.
   */
  lemma BuildTableContents(entries: seq<Entry>)
    ensures forall i :: 0 <= i < |entries| ==> DeriveKey(entries[i].name) in BuildTable(entries)
    ensures forall k :: k in BuildTable(entries) ==> exists i :: 0 <= i < |entries| && DeriveKey(entries[i].name) == k
    ensures forall i :: 0 <= i < |entries| && IsLastFor(entries, i) ==> BuildTable(entries)[DeriveKey(entries[i].name)] == entries[i].path
  {
    var pairs := RoutePairs(entries);
    InsertAllKeys(pairs);
    forall k | k in BuildTable(entries)
      ensures exists i :: 0 <= i < |entries| && DeriveKey(entries[i].name) == k
    {
      var i :| 0 <= i < |pairs| && pairs[i].0 == k;
    }
    forall i | 0 <= i < |entries| && IsLastFor(entries, i)
      ensures BuildTable(entries)[DeriveKey(entries[i].name)] == entries[i].path
    {
      InsertAllLastWins(pairs, i);
    }
  }

  /** The listing was read without an error on any entry. */
  predicate AllRead(items: seq<Option<Entry>>) {
    forall i :: 0 <= i < |items| ==> items[i].Some?
  }

  /** The entries of a listing read without error. */
  function Values(items: seq<Option<Entry>>): (entries: seq<Entry>)
    requires AllRead(items)
    ensures |entries| == |items|
    ensures forall i :: 0 <= i < |items| ==> items[i] == Some(entries[i])
  {
    seq(|items|, i requires 0 <= i < |items| => items[i].value)
  }

  /**
   * `filenames_to_paths`: fails when the directory or any of its entries
   * cannot be read (the `?` on `read_dir` and on each entry), and otherwise
   * yields the table built from the entries.
   */
  method FilenamesToPaths(listing: Listing) returns (r: Option<Table>)
    ensures r.Some? <==> listing.Some? && AllRead(listing.value)
    ensures r.Some? ==> r.value == BuildTable(Values(listing.value))
  {
    if listing.None? {
      return None;
    }
    var items := listing.value;
    var table: Table := map[];
    var i := 0;
    while i < |items|
      invariant 0 <= i <= |items|
      invariant AllRead(items[..i])
      invariant table == BuildTable(Values(items[..i]))
    {
      if items[i].None? {
        return None;
      }
      var entry := items[i].value;
      assert Values(items[..i + 1]) == Values(items[..i]) + [entry];
      RoutePairsSnoc(Values(items[..i]), entry);
      InsertAllSnoc(RoutePairs(Values(items[..i])), RoutePair(entry));
      table := table[DeriveKey(entry.name) := entry.path];
      i := i + 1;
    }
    assert items[..i] == items;
    return Some(table);
  }

  /**
   * The root route `main` inserts after the pages: `GET / HTTP/1.1` serves
   * the index page whatever the listing held, and nothing else changes.
   */
  function Assemble(pages: Table): (routes: Table)
    ensures routes.Keys == pages.Keys + {RootKey}
    ensures routes[RootKey] == IndexPage
    ensures forall k :: k in pages && k != RootKey ==> routes[k] == pages[k]
  {
    pages[RootKey := IndexPage]
  }

  /** Start-up of `main`: no table (and no server) when the pages cannot be listed. */
  method Startup(listing: Listing) returns (routes: Option<Table>)
    ensures routes.Some? <==> listing.Some? && AllRead(listing.value)
    ensures routes.Some? ==> RootKey in routes.value && routes.value[RootKey] == IndexPage
    ensures routes.Some? ==> routes.value == Assemble(BuildTable(Values(listing.value)))
  {
    var pages := FilenamesToPaths(listing);
    if pages.None? {
      return None;
    }
    return Some(Assemble(pages.value));
  }

  /** Of two entries deriving the same key, the table keeps the later one's path. */
  lemma LaterEntryWins(p1: string, p2: string)
    ensures BuildTable([Entry("about", p1), Entry("about.html", p2)]) == map["GET /about HTTP/1.1" := p2]
  {
    DeriveKeyAbout();
    DeriveKeyBareAbout();
    var entries := [Entry("about", p1), Entry("about.html", p2)];
    InsertAllSnoc([RoutePair(entries[0])], RoutePair(entries[1]));
    assert RoutePairs(entries) == [RoutePair(entries[0])] + [RoutePair(entries[1])];
    InsertAllSnoc([], RoutePair(entries[0]));
  }

  /** A page named `.html` derives the root key, and the root route overwrites it. */
  lemma RootRouteOverridesPage(path: string)
    ensures Assemble(BuildTable([Entry(".html", path)])) == map[RootKey := IndexPage]
  {
    DeriveKeyOfBareExtension();
    InsertAllSnoc([], RoutePair(Entry(".html", path)));
    assert RoutePairs([Entry(".html", path)]) == [] + [RoutePair(Entry(".html", path))];
  }
}
