/** Archives made from lists of files, in the ustar format ("ustar Interchange Format" of the pax utility in IEEE
    Std 1003.1), and what the scans of kernel/fs/tar.cpp find in them. */
module Archives {
  import opened Common
  import opened Tar

  datatype File = File(name: string, data: string) {
    /** A name that fits its field, and a size that is read correctly and lets the scan go on. */
    predicate Ok() {
      |name| <= 99 && NUL !in name && |data| < WORD - 1023
    }
  }

  // ---------------------------------------------------------------- building

  /** A number as so many octal digits. */
  function Octal(n: nat, digits: nat): (s: string)
    ensures |s| == digits
  {
    if digits == 0 then [] else Octal(n / 8, digits - 1) + [(n % 8 + '0' as int) as char]
  }

  /** The header of a file: the name from byte 0, the size in octal from byte 124, the magic from byte 257. */
  function Header(f: File): (h: string)
    ensures |h| == 512
  {
    seq(512, i requires 0 <= i < 512 =>
      if i < |f.name| && i < 100 then f.name[i]
      else if 124 <= i < 135 then Octal(|f.data|, 11)[i - 124]
      else if 257 <= i < 262 then "ustar"[i - 257]
      else NUL)
  }

  /** The data, filled up to whole blocks. */
  function Blocks(data: string): (s: string)
    ensures |s| % 512 == 0 && |data| <= |s| < |data| + 512 && s[..|data|] == data
  {
    data + seq((512 - |data| % 512) % 512, _ => NUL)
  }

  /** All files one after the other, and an empty block. */
  function Archive(files: seq<File>): string {
    if files == [] then seq(512, _ => NUL)
    else Header(files[0]) + Blocks(files[0].data) + Archive(files[1..])
  }

  /** The entries the archive is meant to have, from position `at` on. */
  function Listing(files: seq<File>, at: nat): (es: seq<Entry>)
    ensures |es| == |files|
  {
    if files == [] then []
    else [Entry(at, Header(files[0]), |files[0].data|)]
         + Listing(files[1..], at + 512 + |Blocks(files[0].data)|)
  }

  // ---------------------------------------------------------------- reading back

  /** Octal digits denote the number they were made from. */
  lemma {:induction false} OctalValue(n: nat, digits: nat)
    requires n < Times8(1, digits)
    ensures OctValue(Octal(n, digits)) == n
    decreases digits
  {
    if digits > 0 {
      var c := (n % 8 + '0' as int) as char;
      OctalValue(n / 8, digits - 1);
      OctAppend(Octal(n / 8, digits - 1), c);
      assert Digit(c) == n % 8;
    } else {
      assert OctValue([]) == 0;
    }
  }

  lemma HeaderFields(f: File)
    requires f.Ok()
    ensures Header(f)[257..262] == "ustar"
    ensures Header(f)[124..135] == Octal(|f.data|, 11)
    ensures Header(f)[511] == NUL
  {
    var h, o, u := Header(f), Octal(|f.data|, 11), "ustar";
    forall j | 0 <= j < 5 ensures h[257..262][j] == u[j] { assert h[257 + j] == u[j]; }
    forall j | 0 <= j < 11 ensures h[124..135][j] == o[j] { assert h[124 + j] == o[j]; }
    assert h[257..262] == u && h[124..135] == o;
  }

  lemma SliceOfSlice(s: string, at: nat, lo: nat, hi: nat)
    requires lo <= hi <= 512 && at + 512 <= |s|
    ensures s[at..at + 512][lo..hi] == s[at + lo..at + hi]
  {
    var w, a, b := s[at..at + 512], s[at..at + 512][lo..hi], s[at + lo..at + hi];
    assert forall j {:trigger a[j]} :: 0 <= j < |a| ==> a[j] == w[lo + j] == s[at + lo + j] == b[j];
  }

  lemma SizeOfDigits(archive: string, at: nat, digits: string, n: nat)
    requires IsHeader(archive, at) && archive[at + 124..at + 135] == digits && OctValue(digits) == n < WORD
    ensures SizeAt(archive, at) == n
  {
  }

  lemma ElevenDigits(n: nat)
    requires n < WORD
    ensures OctValue(Octal(n, 11)) == n
  {
    ThirtyBits(1);
    OctalValue(n, 11);
  }

  /** The header of a file at `at` is one, and its size and name are those of the file. */
  lemma ReadHeader(archive: string, at: nat, f: File)
    requires f.Ok() && at + 512 <= |archive| && archive[at..at + 512] == Header(f)
    ensures IsHeader(archive, at) && SizeAt(archive, at) == |f.data| && NUL in archive[at..at + 512]
    ensures EntryAt(archive, at) == Entry(at, Header(f), |f.data|)
  {
    HeaderFields(f);
    SliceOfSlice(archive, at, 257, 262);
    SliceOfSlice(archive, at, 124, 135);
    ElevenDigits(|f.data|);
    SizeOfDigits(archive, at, Octal(|f.data|, 11), |f.data|);
    assert Header(f)[511] in Header(f);
  }

  lemma HeaderName(f: File)
    requires f.Ok()
    ensures NUL in Header(f) && CString(Header(f)) == f.name
  {
    var h := Header(f);
    assert h[|f.name|] == NUL;
    assert h[..|f.name|] == f.name;
    CStringIs(h, |f.name|);
  }

  lemma {:induction false} CStringIs(s: string, n: nat)
    requires n < |s| && s[n] == NUL && NUL !in s[..n]
    ensures CString(s) == s[..n]
    decreases |s|
  {
    if n > 0 {
      assert s[0] in s[..n] && s[1..][..n - 1] == s[..n][1..];
      CStringIs(s[1..], n - 1);
    }
  }

  /** The next header is behind the blocks. */
  lemma NextIsBehind(at: nat, f: File)
    requires f.Ok()
    ensures NextHeader(at, |f.data|) == at + 512 + |Blocks(f.data)|
  {
    var n := |f.data|;
    assert BlocksOf(n) == (n + 511) / 512;
    assert |Blocks(f.data)| == (n + 511) / 512 * 512;
  }

  /** From `at` on the archive is sound, and the scan meets the entries `es`. */
  ghost function Readable(archive: string, es: seq<Entry>): set<nat> {
    set at | 0 <= at <= |archive| && Sound(archive, at) && Entries(archive, at) == es
  }

  /** One file: its entry, and then what follows. */
  lemma ReadFile(archive: string, at: nat, f: File, es: seq<Entry>)
    requires f.Ok() && at + 512 <= |archive| && archive[at..at + 512] == Header(f)
    requires at + 512 + |Blocks(f.data)| in Readable(archive, es)
    ensures at in Readable(archive, [Entry(at, Header(f), |f.data|)] + es)
  {
    ReadHeader(archive, at, f);
    NextIsBehind(at, f);
  }

  lemma EmptyEnd(front: string)
    ensures |front| in Readable(front + Archive([]), [])
  {
    var archive, at := front + Archive([]), |front|;
    assert archive[at + 257..at + 262][0] == NUL;
  }

  /** The scan of an archive made from files meets exactly these files, whatever stands in front of it. */
  lemma {:induction false} ReadArchive(front: string, files: seq<File>)
    requires forall f :: f in files ==> f.Ok()
    ensures |front| in Readable(front + Archive(files), Listing(files, |front|))
    decreases |files|
  {
    if files == [] {
      EmptyEnd(front);
    } else {
      var f := files[0];
      var front' := front + (Header(f) + Blocks(f.data));
      assert f in files;
      ReadArchive(front', files[1..]);
      Parts(front, files);
      ReadFile(front + Archive(files), |front|, f, Listing(files[1..], |front'|));
    }
  }

  lemma Parts(front: string, files: seq<File>)
    requires files != []
    ensures var f, archive := files[0], front + Archive(files);
      var front' := front + (Header(f) + Blocks(f.data));
      && archive == front' + Archive(files[1..]) && |front'| == |front| + 512 + |Blocks(f.data)|
      && |archive| >= |front| + 512 && archive[|front|..|front| + 512] == Header(f)
      && Listing(files, |front|) == [Entry(|front|, Header(f), |f.data|)] + Listing(files[1..], |front'|)
  {
    var f := files[0];
    var body, rest := Header(f) + Blocks(f.data), Archive(files[1..]);
    assert Archive(files) == body + rest;
    assert front + (body + rest) == (front + body) + rest;
  }

  // ---------------------------------------------------------------- finding files

  /** Entry `e` has the name `f`, or lies below a directory of that name. */
  predicate Answers(e: File, f: string) {
    |f| <= |e.name| && e.name[..|f|] == f && (|f| == |e.name| || e.name[|f|] == SLASH)
  }

  /** How far the first `k` files move the inode numbers on: one for each and for each slash in its name. */
  function Numbers(files: seq<File>, k: nat): nat
    requires k <= |files|
  {
    if k == 0 then 0 else 1 + Slashes(files[0].name) + Numbers(files[1..], k - 1)
  }

  /** Where the header of file `k` is. */
  function Offset(files: seq<File>, k: nat): nat
    requires k <= |files|
  {
    if k == 0 then 0 else Offset(files, k - 1) + 512 + |Blocks(files[k - 1].data)|
  }

  lemma {:induction false} OffsetShift(files: seq<File>, k: nat)
    requires 0 < k <= |files|
    ensures Offset(files, k) == 512 + |Blocks(files[0].data)| + Offset(files[1..], k - 1)
    decreases k
  {
    if k > 1 { OffsetShift(files, k - 1); }
  }

  lemma HeaderAnswers(e: File, f: string)
    requires e.Ok() && NUL !in f
    ensures Matches(Header(e), f) <==> Answers(e, f)
  {
    HeaderName(e);
    MatchesName(Header(e), f);
  }

  lemma ListingStep(files: seq<File>, at: nat)
    requires files != [] && files[0].Ok()
    ensures var es := Listing(files, at);
      && es != [] && es[0] == Entry(at, Header(files[0]), |files[0].data|) && es[0].Name() == files[0].name
      && es[1..] == Listing(files[1..], at + 512 + |Blocks(files[0].data)|)
  {
    HeaderName(files[0]);
  }

  ghost predicate FirstAnswer(files: seq<File>, f: string, k: nat) {
    && k < |files| && Answers(files[k], f) && (forall j :: 0 <= j < k ==> !Answers(files[j], f))
    && NUL !in f && forall e :: e in files ==> e.Ok()
  }

  /** How far the first `k` entries move the inode numbers on. */
  function Moved(es: seq<Entry>, k: nat): nat
    requires k <= |es|
  {
    if k == 0 then 0 else 1 + Slashes(es[0].Name()) + Moved(es[1..], k - 1)
  }

  /** The lookup by name finds the first entry that matches. */
  lemma {:induction false} FirstEntry(es: seq<Entry>, f: string, inode: nat, k: nat)
    requires k < |es| && Matches(es[k].header, f) && forall j :: 0 <= j < k ==> !Matches(es[j].header, f)
    ensures LookupIn(es, f, inode) ==
              Found(inode + Moved(es, k) + Slashes(f), es[k].at, if es[k].header[|f|] == NUL then es[k].size else 0)
    decreases k
  {
    if k == 0 {
      NameHit(es, f, inode);
    } else {
      NameMissed(es, f, inode);
      FirstEntry(es[1..], f, inode + Slashes(es[0].Name()) + 1, k - 1);
    }
  }

  /** Entry `k` is that of file `k`. */
  lemma {:induction false} ListingAt(files: seq<File>, at: nat, k: nat)
    requires k < |files| && forall e :: e in files ==> e.Ok()
    ensures Listing(files, at)[k] == Entry(at + Offset(files, k), Header(files[k]), |files[k].data|)
    decreases k
  {
    var es, rest := Listing(files, at), files[1..];
    assert files[0] in files;
    ListingStep(files, at);
    if k > 0 {
      OffsetShift(files, k);
      ListingAt(rest, at + 512 + |Blocks(files[0].data)|, k - 1);
      assert es[k] == es[1..][k - 1] && rest[k - 1] == files[k];
    }
  }

  lemma {:induction false} MovedAt(files: seq<File>, at: nat, k: nat)
    requires k <= |files| && forall e :: e in files ==> e.Ok()
    ensures Moved(Listing(files, at), k) == Numbers(files, k)
    decreases k
  {
    if k > 0 {
      assert files[0] in files;
      ListingStep(files, at);
      MovedAt(files[1..], at + 512 + |Blocks(files[0].data)|, k - 1);
    }
  }

  /** The lookup by name finds the first file that answers to the name. */
  lemma FirstMatch(files: seq<File>, f: string, k: nat)
    requires FirstAnswer(files, f, k)
    ensures LookupIn(Listing(files, 0), f, 3) ==
              Found(3 + Numbers(files, k) + Slashes(f), Offset(files, k),
                    if f == files[k].name then |files[k].data| else 0)
  {
    var es := Listing(files, 0);
    forall j: nat | j <= k ensures es[j].header == Header(files[j]) && (Matches(es[j].header, f) <==> j == k) {
      assert files[j] in files;
      ListingAt(files, 0, j);
      HeaderAnswers(files[j], f);
    }
    ListingAt(files, 0, k);
    MovedAt(files, 0, k);
    FirstEntry(es, f, 3, k);
    NameEnds(files[k], f);
  }

  lemma NameEnds(e: File, f: string)
    requires e.Ok() && Answers(e, f)
    ensures |f| < 512 && (Header(e)[|f|] == NUL <==> f == e.name)
  {
    if |f| < |e.name| {
      assert Header(e)[|f|] == e.name[|f|] && e.name[|f|] in e.name;
    }
  }

  lemma SliceBehind(a: string, b: string, lo: nat, hi: nat)
    requires lo <= hi <= |b|
    ensures (a + b)[|a| + lo..|a| + hi] == b[lo..hi]
  {
    var s, t := (a + b)[|a| + lo..|a| + hi], b[lo..hi];
    assert forall j {:trigger s[j]} :: 0 <= j < |s| ==> s[j] == (a + b)[|a| + lo + j] == b[lo + j] == t[j];
  }

  lemma SliceFront(a: string, b: string, lo: nat, hi: nat)
    requires lo <= hi <= |a|
    ensures (a + b)[lo..hi] == a[lo..hi]
  {
    var s, t := (a + b)[lo..hi], a[lo..hi];
    assert forall j {:trigger s[j]} :: 0 <= j < |s| ==> s[j] == (a + b)[lo + j] == a[lo + j] == t[j];
  }

  /** The text `d` stands in `s` at position `at`. */
  predicate StandsAt(s: string, at: nat, d: string) {
    at + |d| <= |s| && s[at..at + |d|] == d
  }

  /** The data of file `k` lies behind its header. */
  lemma {:induction false} DataAt(files: seq<File>, k: nat)
    requires k < |files|
    ensures StandsAt(Archive(files), Offset(files, k) + 512, files[k].data)
    decreases k
  {
    var body, rest := Header(files[0]) + Blocks(files[0].data), Archive(files[1..]);
    assert Archive(files) == body + rest;
    if k == 0 {
      DataInFront(files[0], rest);
    } else {
      DataAt(files[1..], k - 1);
      OffsetShift(files, k);
      assert files[1..][k - 1] == files[k];
      StandsBehind(body, rest, Offset(files[1..], k - 1) + 512, files[k].data);
    }
  }

  lemma StandsBehind(a: string, b: string, at: nat, d: string)
    requires StandsAt(b, at, d)
    ensures StandsAt(a + b, |a| + at, d)
  {
    SliceBehind(a, b, at, at + |d|);
  }

  lemma DataInFront(f: File, rest: string)
    ensures StandsAt(Header(f) + Blocks(f.data) + rest, 512, f.data)
  {
    var n, body := |f.data|, Header(f) + Blocks(f.data);
    SliceFront(body, rest, 512, 512 + n);
    SliceBehind(Header(f), Blocks(f.data), 0, n);
    assert Blocks(f.data)[0..n] == f.data;
  }

  /** The archive is sound and its entries are the files. */
  lemma WholeArchive(files: seq<File>)
    requires forall f :: f in files ==> f.Ok()
    ensures Sound(Archive(files), 0) && Entries(Archive(files), 0) == Listing(files, 0)
  {
    ReadArchive([], files);
    assert [] + Archive(files) == Archive(files);
  }

  lemma LookupBuilt(files: seq<File>, f: string)
    requires |f| <= 99 && forall e :: e in files ==> e.Ok()
    ensures LookupName(Archive(files), f) == LookupIn(Listing(files, 0), f, 3)
  {
    WholeArchive(files);
  }

  /** A name is found as the first file that answers to it.  Its own file is found with its size and its data, and a
      directory with size 0; the number counts the files before and all slashes up to it, from 3 on. */
  lemma FilesFound(files: seq<File>, f: string, k: nat)
    requires FirstAnswer(files, f, k)
    ensures var r := LookupName(Archive(files), f);
      && r.Found? && r.at == Offset(files, k) && r.inode == 3 + Numbers(files, k) + Slashes(f)
      && r.length == (if f == files[k].name then |files[k].data| else 0)
  {
    assert files[k] in files;
    LookupBuilt(files, f);
    FirstMatch(files, f, k);
  }

  /** A name to which no file answers is not found. */
  lemma {:induction false} NoMatch(files: seq<File>, f: string, at: nat, inode: nat)
    requires NUL !in f && forall e :: e in files ==> e.Ok() && !Answers(e, f)
    ensures LookupIn(Listing(files, at), f, inode) == NoEntry
  {
    if files != [] {
      var e := files[0];
      assert e in files;
      HeaderAnswers(e, f);
      ListingStep(files, at);
      NameMissed(Listing(files, at), f, inode);
      NoMatch(files[1..], f, at + 512 + |Blocks(e.data)|, inode + Slashes(e.name) + 1);
    }
  }

  lemma OthersNotFound(files: seq<File>, f: string)
    requires NUL !in f && |f| <= 99 && forall e :: e in files ==> e.Ok() && !Answers(e, f)
    ensures LookupName(Archive(files), f) == NoEntry
  {
    LookupBuilt(files, f);
    NoMatch(files, f, 0, 3);
  }
}
