/** The breadcrumb trail of `src/components/sidebar/dashboard-header.tsx`: the path is cut
    into its non-empty segments, each shown title-cased, each but the last linking to the
    path up to it, after a root crumb that links to `/`. */
module DashboardHeader {
  import opened Wrappers
  import opened Text
  import opened Seqs

  function NonEmpty(s: string): bool {
    s != ""
  }

  /** `pathname.split("/").filter(Boolean)`. */
  function Segments(pathname: string): (segs: seq<string>)
    ensures forall i :: 0 <= i < |segs| ==> segs[i] != "" && '/' !in segs[i]
  {
    SplitPiecesAvoid(pathname, '/');
    var r := Filter(Split(pathname, '/'), NonEmpty);
    assert forall i :: 0 <= i < |r| ==> r[i] in r;
    r
  }

  /** The root path has no segments. */
  lemma SegmentsOfRoot()
    ensures Segments("/") == []
  {
    var all := ["", ""];
    assert Join(all, "/") == "/";
    SplitJoin(all, '/');
    assert all[1..] == [""];
  }

  /** A path written as `/` followed by non-empty, `/`-free parts joined with `/` has
      exactly those parts as its segments. */
  lemma SegmentsOfJoin(parts: seq<string>)
    requires forall i :: 0 <= i < |parts| ==> parts[i] != "" && '/' !in parts[i]
    ensures Segments("/" + Join(parts, "/")) == parts
  {
    if parts == [] {
      SegmentsOfRoot();
    } else {
      SplitRootedJoin(parts);
      SegmentsAfterRoot("/" + Join(parts, "/"), parts);
    }
  }

  /** A path that splits into an empty piece and then non-empty ones has those as its
      segments. */
  lemma SegmentsAfterRoot(path: string, parts: seq<string>)
    requires Split(path, '/') == [""] + parts
    requires forall i :: 0 <= i < |parts| ==> parts[i] != ""
    ensures Segments(path) == parts
  {
    var all := [""] + parts;
    assert all[1..] == parts;
    assert forall x :: x in parts ==> NonEmpty(x);
    FilterAll(parts, NonEmpty);
  }

  lemma SplitRootedJoin(parts: seq<string>)
    requires parts != []
    requires forall i :: 0 <= i < |parts| ==> '/' !in parts[i]
    ensures Split("/" + Join(parts, "/"), '/') == [""] + parts
  {
    var all := [""] + parts;
    JoinCons("", parts, "/");
    forall p | p in all ensures '/' !in p {
      var i :| 0 <= i < |all| && all[i] == p;
      if i > 0 {
        assert parts[i - 1] == p;
      }
    }
    SplitJoin(all, '/');
  }

  /** `c.toUpperCase()` on ASCII letters; other characters are kept. */
  function UpperAscii(c: char): (u: char)
    ensures u == c || ('a' <= c <= 'z' && 'A' <= u <= 'Z')
  {
    if 'a' <= c <= 'z' then (c as int - 32) as char else c
  }

  /** `word.charAt(0).toUpperCase() + word.slice(1)`. */
  function Capitalize(word: string): (r: string)
    ensures |r| == |word|
  {
    if word == [] then [] else [UpperAscii(word[0])] + word[1..]
  }

  /** `segment.split("-").map(capitalize).join(" ")`. */
  function FormatSegment(segment: string): string {
    Join(Map(Split(segment, '-'), Capitalize), " ")
  }

  /** Character `i` of a formatted segment, read off the segment itself: a `-` becomes a
      space, a character that starts a word (first, or just after a `-`) is upper-cased,
      and every other character is kept. */
  function TitleChar(s: string, i: nat): char
    requires i < |s|
  {
    if s[i] == '-' then ' ' else if i == 0 || s[i - 1] == '-' then UpperAscii(s[i]) else s[i]
  }

  function TitleCased(s: string): string {
    seq(|s|, i requires 0 <= i < |s| => TitleChar(s, i))
  }

  /** A formatted segment is the segment with every `-` turned into a space and every
      word's first character upper-cased; so it has no `-` and the segment's length. */
  lemma FormatSegmentShape(segment: string)
    ensures |FormatSegment(segment)| == |segment|
    ensures forall i :: 0 <= i < |segment| ==> FormatSegment(segment)[i] == TitleChar(segment, i)
    ensures '-' !in FormatSegment(segment)
  {
    var words := Split(segment, '-');
    SplitPiecesAvoid(segment, '-');
    JoinSplitOn(segment, "-");
    FormatJoin(words);
    var f := FormatSegment(segment);
    forall c | c in f ensures c != '-' {
      var i :| 0 <= i < |f| && f[i] == c;
      assert f[i] == TitleChar(segment, i);
    }
  }

  /** Capitalising a word without `-` title-cases it. */
  lemma CapitalizeWord(p: string)
    requires '-' !in p
    ensures Capitalize(p) == TitleCased(p)
  {
    forall i | 0 <= i < |p| ensures Capitalize(p)[i] == TitleChar(p, i) {
      if i > 0 {
        assert p[i] in p && p[i - 1] in p;
      } else {
        assert p[0] in p;
      }
    }
  }

  /** Title-casing across a `-` after a word without `-`: the word, a space, the rest. */
  lemma TitleCasedAcrossDash(p: string, rest: string)
    requires '-' !in p
    ensures TitleCased(p + "-" + rest) == TitleCased(p) + " " + TitleCased(rest)
  {
    var s := p + "-" + rest;
    var t := TitleCased(p) + " " + TitleCased(rest);
    forall i | 0 <= i < |s| ensures TitleChar(s, i) == t[i] {
      if i < |p| {
        assert s[i] == p[i];
        if i > 0 {
          assert s[i - 1] == p[i - 1];
        }
      } else if i > |p| {
        var j := i - |p| - 1;
        assert s[i] == rest[j];
        if j > 0 {
          assert s[i - 1] == rest[j - 1];
        }
      }
    }
  }

  /** Capitalising `-`-free words and joining them with spaces title-cases their `-`-join. */
  lemma {:induction false} FormatJoin(parts: seq<string>)
    requires |parts| >= 1
    requires forall q :: q in parts ==> '-' !in q
    ensures Join(Map(parts, Capitalize), " ") == TitleCased(Join(parts, "-"))
    decreases |parts|
  {
    assert parts[0] in parts;
    CapitalizeWord(parts[0]);
    if |parts| > 1 {
      var caps := Map(parts, Capitalize);
      assert caps[1..] == Map(parts[1..], Capitalize);
      forall q | q in parts[1..] ensures '-' !in q {
        assert q in parts;
      }
      FormatJoin(parts[1..]);
      TitleCasedAcrossDash(parts[0], Join(parts[1..], "-"));
    }
  }

  datatype Crumb = Link(href: string, title: string) | Page(title: string)

  const RootLabel := "Omega Phi"

  /** The crumb for segment `i`: the last one is the current page, the others link to the
      path made of the segments up to and including `i`. */
  function SegmentCrumb(segs: seq<string>, i: nat): Crumb
    requires i < |segs|
  {
    if i == |segs| - 1 then Page(FormatSegment(segs[i]))
    else Link("/" + Join(segs[..i + 1], "/"), FormatSegment(segs[i]))
  }

  function Breadcrumbs(pathname: string): (r: seq<Crumb>)
    ensures |r| == |Segments(pathname)| + 1
  {
    var segs := Segments(pathname);
    [Link("/", RootLabel)] + seq(|segs|, i requires 0 <= i < |segs| => SegmentCrumb(segs, i))
  }

  /** Crumb `i + 1` is the crumb of segment `i`. */
  lemma CrumbAt(pathname: string, i: nat)
    requires i < |Segments(pathname)|
    ensures Breadcrumbs(pathname)[i + 1] == SegmentCrumb(Segments(pathname), i)
  {
  }

  /** The trail starts at the root, ends with the current page when the path has a
      segment, and links everywhere else; each segment crumb is titled with its formatted
      segment. */
  lemma BreadcrumbsShape(pathname: string)
    ensures var r, segs := Breadcrumbs(pathname), Segments(pathname);
      && r[0] == Link("/", RootLabel)
      && (segs != [] ==> r[|r| - 1] == Page(FormatSegment(segs[|segs| - 1])))
      && (forall i :: 0 <= i < |r| - 1 ==> r[i].Link?)
      && (forall i :: 1 <= i < |r| ==> r[i].title == FormatSegment(segs[i - 1]))
  {
    var r, segs := Breadcrumbs(pathname), Segments(pathname);
    forall i | 1 <= i < |r| ensures r[i] == SegmentCrumb(segs, i - 1) {
      CrumbAt(pathname, i - 1);
    }
  }

  /** The link of segment `i` goes to `/` and the first `i + 1` segments, and extends the
      previous link by `/` and segment `i`, so each href is a prefix of the next. */
  lemma CrumbHref(pathname: string, i: nat)
    requires 1 <= i < |Segments(pathname)| - 1
    ensures var r, segs := Breadcrumbs(pathname), Segments(pathname);
      && r[i + 1].href == "/" + Join(segs[..i + 1], "/")
      && r[i + 1].href == r[i].href + "/" + segs[i]
      && StartsWith(r[i + 1].href, r[i].href)
  {
    var r, segs := Breadcrumbs(pathname), Segments(pathname);
    CrumbAt(pathname, i);
    CrumbAt(pathname, i - 1);
    assert segs[..i + 1] == segs[..i] + [segs[i]];
    JoinSnoc(segs[..i], segs[i], "/");
    var a, b := r[i].href, r[i + 1].href;
    assert b[..|a|] == a;
  }
}
