/**
 * Where the content manager puts a new file (`generateFilePath`) and which
 * files it lists as content (`getAllMarkdownFiles`). The filesystem is the
 * set of paths that exist, and a directory listing is a tree of entries.
 */
module ContentPaths {
  import opened Wrappers
  import opened Text
  import opened NodePath
  import opened Slugs
  import opened Seqs

  /** `SUPPORTED_EXTENSIONS` */
  const SupportedExtensions: seq<string> := [".md", ".mdx"]

  /** The calendar fields `generateFilePath` reads from its date, in the local time zone. */
  datatype LocalDate = LocalDate(year: int, month0: nat, day: nat)

  /** `path.join(baseDir, String(year), month, day)` with month and day zero-padded to two digits. */
  function DateDir(baseDir: string, date: LocalDate): string {
    Join(Join(Join(baseDir, IntToString(date.year)), PadStart2(NatToString(date.month0 + 1))),
         PadStart2(NatToString(date.day)))
  }

  /** A month or day of a real calendar date is written as exactly two digits that read back as its value. */
  lemma TwoDigitField(n: nat)
    requires 1 <= n <= 31
    ensures |PadStart2(NatToString(n))| == 2
    ensures AllDigits(PadStart2(NatToString(n)))
    ensures ParseDigits(PadStart2(NatToString(n))) == n
  {
    var s := NatToString(n);
    var p := PadStart2(s);
    ParseNatToString(n);
    if n < 10 {
      assert s == [DigitChar(n)];
      assert p == ['0'] + s;
      assert p[..1] == ['0'];
    } else {
      assert n / 10 < 10;
      assert p == s;
    }
  }

  /** How the candidate names run: a dated directory's or a titled file's. */
  datatype Naming =
    | Numbered          // index.md, 1.md, 2.md, ...
    | Titled(slug: string)  // slug.md, slug-1.md, slug-2.md, ...

  function FileName(naming: Naming, k: nat): (name: string)
    ensures IsSuffix(".md", name)
  {
    match naming
    case Numbered => if k == 0 then "index.md" else NatToString(k) + ".md"
    case Titled(slug) => if k == 0 then slug + ".md" else slug + "-" + NatToString(k) + ".md"
  }

  /** The `k`-th path tried. */
  function Candidate(dir: string, naming: Naming, k: nat): string {
    Join(dir, FileName(naming, k))
  }

  /** Distinct attempts try distinct names. */
  lemma FileNameInjective(naming: Naming, j: nat, k: nat)
    requires FileName(naming, j) == FileName(naming, k)
    ensures j == k
  {
    var dotMd := ".md";
    match naming
    case Numbered =>
      if j > 0 && k > 0 {
        CancelAffixes([], NatToString(j), NatToString(k), dotMd);
        NatToStringInjective(j, k);
      } else if j > 0 {
        NumberedIsNotIndex(j);
      } else if k > 0 {
        NumberedIsNotIndex(k);
      }
    case Titled(slug) =>
      if j > 0 && k > 0 {
        CancelAffixes(slug + "-", NatToString(j), NatToString(k), dotMd);
        NatToStringInjective(j, k);
      }
  }

  lemma NumberedIsNotIndex(n: nat)
    ensures NatToString(n) + ".md" != "index.md"
  {
    var name := NatToString(n) + ".md";
    assert name[0] == NatToString(n)[0] && IsDigit(name[0]);
  }

  lemma CandidateInjective(dir: string, naming: Naming, j: nat, k: nat)
    requires Candidate(dir, naming, j) == Candidate(dir, naming, k)
    ensures j == k
  {
    CancelAffixes(dir + "/", FileName(naming, j), FileName(naming, k), []);
    FileNameInjective(naming, j, k);
  }

  /** The paths tried before attempt `n`, from attempt `from` on. */
  function Tried(dir: string, naming: Naming, from: nat, n: nat): set<string> {
    Image(k => Candidate(dir, naming, k), from, n)
  }

  /** Each attempt adds a path not tried before. */
  lemma TriedSize(dir: string, naming: Naming, from: nat, n: nat)
    requires from <= n
    ensures |Tried(dir, naming, from, n)| == n - from
  {
    var f := k => Candidate(dir, naming, k);
    forall j: nat, k: nat | from <= j < k < n
      ensures f(j) != f(k)
    {
      if f(j) == f(k) {
        CandidateInjective(dir, naming, j, k);
      }
    }
    InjectiveImageSize(f, from, n);
  }

  /**
   * The `do … while (pathExists)` loop: the first attempt from `n` on whose
   * path does not exist. It ends because the attempts try distinct paths and
   * only finitely many exist.
   */
  function FirstFree(dir: string, naming: Naming, existing: set<string>, from: nat, n: nat): (k: nat)
    requires from <= n
    requires forall j :: from <= j < n ==> Candidate(dir, naming, j) in existing
    ensures n <= k
    ensures Candidate(dir, naming, k) !in existing
    ensures forall j :: from <= j < k ==> Candidate(dir, naming, j) in existing
    decreases |existing| - (n - from)
  {
    TriedSize(dir, naming, from, n);
    SubsetSize(Tried(dir, naming, from, n), existing);
    if Candidate(dir, naming, n) !in existing then n
    else
      TriedSize(dir, naming, from, n + 1);
      SubsetSize(Tried(dir, naming, from, n + 1), existing);
      FirstFree(dir, naming, existing, from, n + 1)
  }

  /** The directory and naming `generateFilePath` uses for a content kind. */
  function Layout(baseDir: string, kind: string, title: string, date: LocalDate, now: nat): (layout: (string, Naming))
    ensures layout.1.Titled? ==> layout.1.slug != [] && IsSlugText(layout.1.slug)
  {
    if kind == "post" || kind == "note" then (DateDir(baseDir, date), Numbered)
    else (baseDir, Titled(SlugOrUntitled(title, now)))
  }

  /** The title's slug, or `untitled-<now>` when nothing of the title survives. */
  function SlugOrUntitled(title: string, now: nat): (name: string)
    ensures name != [] && IsSlugText(name)
    ensures Slug(title) != [] ==> name == Slug(title)
  {
    var slug := Slug(title);
    if slug == [] then
      UntitledIsSlugText(now);
      "untitled-" + NatToString(now)
    else slug
  }

  lemma UntitledIsSlugText(now: nat)
    ensures IsSlugText("untitled-" + NatToString(now))
  {
    var name := "untitled-" + NatToString(now);
    assert forall i :: 0 <= i < |NatToString(now)| ==> name[9 + i] == NatToString(now)[i];
  }

  /**
   * `generateFilePath(baseDir, type, title, date)` with `Date.now()` as `now`
   * and `existing` the paths that exist: posts and notes go to
   * `baseDir/YYYY/MM/DD/` as `index.md`, then `1.md`, `2.md`, ...; anything
   * else goes to `baseDir/` as `slug.md`, then `slug-1.md`, `slug-2.md`, ...
   * The first of these that does not exist is returned.
   */
  function GenerateFilePath(baseDir: string, kind: string, title: string, date: LocalDate, now: nat,
                            existing: set<string>): (path: string)
    ensures path !in existing
    ensures var (dir, naming) := Layout(baseDir, kind, title, date, now);
      exists k: nat :: path == Candidate(dir, naming, k) && forall j :: 0 <= j < k ==> Candidate(dir, naming, j) in existing
    ensures (kind == "post" || kind == "note") ==>
      (path == Join(DateDir(baseDir, date), "index.md") <==> Join(DateDir(baseDir, date), "index.md") !in existing)
  {
    var (dir, naming) := Layout(baseDir, kind, title, date, now);
    var k := FirstFree(dir, naming, existing, 0, 0);
    assert Candidate(dir, naming, k) == Candidate(dir, naming, 0) ==> k == 0 by {
      if Candidate(dir, naming, k) == Candidate(dir, naming, 0) {
        CandidateInjective(dir, naming, k, 0);
      }
    }
    Candidate(dir, naming, k)
  }

  lemma DigitsLackSeparators(n: nat)
    ensures Lacks(NatToString(n), '.') && Lacks(NatToString(n), '/')
  {
  }

  /** Every candidate name is a markdown file name. */
  lemma FileNameIsMarkdown(naming: Naming, k: nat)
    requires naming.Titled? ==> naming.slug != [] && IsSlugText(naming.slug)
    ensures FileName(naming, k) != [] && Lacks(FileName(naming, k), '/')
    ensures Extname(FileName(naming, k)) == ".md"
  {
    var stem := match naming
      case Numbered => if k == 0 then "index" else NatToString(k)
      case Titled(slug) => if k == 0 then slug else slug + "-" + NatToString(k);
    assert FileName(naming, k) == stem + ".md";
    DigitsLackSeparators(k);
    assert Lacks(stem, '.') && Lacks(stem, '/') && stem != [] by {
      if naming.Titled? && k > 0 {
        assert forall i :: 0 <= i < |stem| ==> IsSlugChar(stem[i]) || IsDigit(stem[i]) by {
          forall i | 0 <= i < |stem|
            ensures IsSlugChar(stem[i]) || IsDigit(stem[i])
          {
            if i > |naming.slug| {
              assert stem[i] == NatToString(k)[i - |naming.slug| - 1];
            }
          }
        }
      }
    }
    assert Lacks(".md"[1..], '.');
    ExtnameOfStem(stem, ".md");
  }

  /** The generated path is always a markdown file the content listing picks up. */
  lemma GeneratedPathIsMarkdown(baseDir: string, kind: string, title: string, date: LocalDate, now: nat,
                                existing: set<string>)
    ensures Extname(GenerateFilePath(baseDir, kind, title, date, now, existing)) == ".md"
    ensures Extname(GenerateFilePath(baseDir, kind, title, date, now, existing)) in SupportedExtensions
  {
    var (dir, naming) := Layout(baseDir, kind, title, date, now);
    var path := GenerateFilePath(baseDir, kind, title, date, now, existing);
    var k: nat :| path == Candidate(dir, naming, k) && forall j :: 0 <= j < k ==> Candidate(dir, naming, j) in existing;
    FileNameIsMarkdown(naming, k);
    ExtnameOfJoin(dir, FileName(naming, k));
  }

  // ---------------------------------------------------------------- listing

  /** A directory entry as `readdir(..., { withFileTypes: true })` reports it. */
  datatype Entry =
    | File(name: string)
    | Dir(name: string, children: seq<Entry>)
    | Other(name: string)   // symbolic links, sockets, devices: neither a file nor a directory

  /** The extensions the listing keeps, compared exactly. */
  predicate IsMarkdownName(name: string) {
    Extname(name) in SupportedExtensions
  }

  /** Directory listings name their entries with non-empty, separator-free names. */
  predicate WellNamed(entries: seq<Entry>) {
    forall i :: 0 <= i < |entries| ==>
      entries[i].name != [] && Lacks(entries[i].name, '/')
      && (entries[i].Dir? ==> WellNamed(entries[i].children))
  }

  /** Every regular file under `dir`, depth first in listing order. */
  function AllFiles(dir: string, entries: seq<Entry>): seq<string>
    decreases entries
  {
    if entries == [] then []
    else
      var here := match entries[0]
        case File(name) => [Join(dir, name)]
        case Dir(name, children) => AllFiles(Join(dir, name), children)
        case Other(_) => [];
      here + AllFiles(dir, entries[1..])
  }

  /** The markdown walk over a listing that exists. */
  function MarkdownFiles(dir: string, entries: seq<Entry>): seq<string>
    decreases entries
  {
    if entries == [] then []
    else
      var here := match entries[0]
        case File(name) => if IsMarkdownName(name) then [Join(dir, name)] else []
        case Dir(name, children) => MarkdownFiles(Join(dir, name), children)
        case Other(_) => [];
      here + MarkdownFiles(dir, entries[1..])
  }

  /**
   * Filtering while walking is filtering the full walk: the listing holds
   * exactly the regular files with a markdown extension, in walk order.
   */
  lemma {:induction false} MarkdownFilesIsFilteredWalk(dir: string, entries: seq<Entry>)
    requires WellNamed(entries)
    ensures MarkdownFiles(dir, entries) == Filter(AllFiles(dir, entries), IsMarkdownName)
    decreases entries
  {
    if entries != [] {
      assert WellNamed(entries[1..]) by {
        forall i | 0 <= i < |entries[1..]|
          ensures entries[1..][i] == entries[i + 1]
        {
        }
      }
      MarkdownFilesIsFilteredWalk(dir, entries[1..]);
      var allHere := match entries[0]
        case File(name) => [Join(dir, name)]
        case Dir(name, children) => AllFiles(Join(dir, name), children)
        case Other(_) => [];
      FilterAppend(allHere, AllFiles(dir, entries[1..]), IsMarkdownName);
      match entries[0]
      case File(name) =>
        ExtnameOfJoin(dir, name);
        assert Filter([Join(dir, name)], IsMarkdownName) == if IsMarkdownName(name) then [Join(dir, name)] else [];
      case Dir(name, children) =>
        MarkdownFilesIsFilteredWalk(Join(dir, name), children);
      case Other(_) =>
    }
  }

  /** `getAllMarkdownFiles(dir)`: nothing when `dir` does not exist. */
  function GetAllMarkdownFiles(dir: string, listing: Option<seq<Entry>>): (files: seq<string>)
    ensures listing.None? ==> files == []
    ensures listing.Some? && WellNamed(listing.value) ==>
      files == Filter(AllFiles(dir, listing.value), IsMarkdownName)
      && forall i :: 0 <= i < |files| ==> IsMarkdownName(files[i])
  {
    match listing
    case None => []
    case Some(entries) =>
      assert WellNamed(entries) ==> MarkdownFiles(dir, entries) == Filter(AllFiles(dir, entries), IsMarkdownName) by {
        if WellNamed(entries) {
          MarkdownFilesIsFilteredWalk(dir, entries);
        }
      }
      MarkdownFiles(dir, entries)
  }
}
