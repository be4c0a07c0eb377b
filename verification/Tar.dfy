/** The ustar archive behind the initial file system (kernel/fs/tar.cpp): inode numbers are made up by
    counting entries and slashes while the archive is scanned. */
module Tar {
  import opened Common

  const NUL: char := '\0'
  const SLASH: char := '/'

  /** A file header and the block it starts at. */
  datatype Entry = Entry(at: nat, header: string, size: nat) {
    function Name(): string { CString(header) }
  }

  /** The characters before the first NUL. */
  function CString(s: string): (n: string)
    ensures |n| <= |s| && n == s[..|n|] && NUL !in n
    ensures |n| < |s| ==> s[|n|] == NUL
  {
    if s == [] || s[0] == NUL then [] else
      var t := CString(s[1..]);
      [s[0]] + t
  }

  function Slashes(s: string): nat {
    if s == [] then 0 else (if s[0] == SLASH then 1 else 0) + Slashes(s[1..])
  }

  // ---------------------------------------------------------------- the archive

  predicate IsHeader(archive: string, ptr: nat) {
    ptr + 512 <= |archive| && archive[ptr + 257..ptr + 262] == "ustar"
  }

  function Digit(c: char): int {
    c as int - '0' as int
  }

  /** d times the n-th power of eight. */
  function Times8(d: int, n: nat): int {
    if n == 0 then d else 8 * Times8(d, n - 1)
  }

  /** The value of a string of octal digits: each counts with its power of eight. */
  function OctValue(s: string): int {
    if s == [] then 0 else Times8(Digit(s[0]), |s| - 1) + OctValue(s[1..])
  }

  /** One more digit at the end. */
  lemma {:induction false} OctAppend(s: string, c: char)
    ensures OctValue(s + [c]) == 8 * OctValue(s) + Digit(c)
  {
    if s == [] {
      assert s + [c] == [c] && OctValue([]) == 0;
      assert OctValue([c]) == Times8(Digit(c), 0) + OctValue([]);
    } else {
      assert (s + [c])[1..] == s[1..] + [c];
      OctAppend(s[1..], c);
    }
  }

  function Zeros(n: nat): string {
    seq(n, _ => '0')
  }

  lemma {:induction false} OctZeros(n: nat)
    ensures OctValue(Zeros(n)) == 0
  {
    if n > 0 {
      OctZeros(n - 1);
      OctAppend(Zeros(n - 1), '0');
      assert Zeros(n) == Zeros(n - 1) + ['0'];
    }
  }

  lemma {:induction false} DigitBound(d: int, n: nat)
    requires 0 <= d <= 7
    ensures 0 <= Times8(d, n) <= 7 * Times8(1, n)
  {
    if n > 0 { DigitBound(d, n - 1); }
  }

  /** Octal digits denote a number below the next power of eight. */
  lemma {:induction false} OctBound(s: string)
    requires forall c :: c in s ==> '0' <= c <= '7'
    ensures 0 <= OctValue(s) < Times8(1, |s|)
  {
    if s != [] {
      assert s[0] in s;
      assert forall c :: c in s[1..] ==> c in s;
      OctBound(s[1..]);
      DigitBound(Digit(s[0]), |s| - 1);
    }
  }

  function SizeAt(archive: string, ptr: nat): nat
    requires IsHeader(archive, ptr)
  {
    OctValue(archive[ptr + 0x7c..ptr + 0x7c + 11]) % WORD
  }

  /** The blocks of a file, in 32-bit arithmetic. */
  function BlocksOf(size: nat): nat {
    (size + 511) % WORD / 512
  }

  /** Where the next header is: behind the blocks of the file.  With all 2^23 of them the product wraps around. */
  function NextHeader(ptr: nat, size: nat): nat {
    if BlocksOf(size) == 0x7F_FFFF then ptr else ptr + (BlocksOf(size) + 1) * 512
  }

  /** This is the 32-bit product that the code adds, and it is nothing exactly for the biggest sizes. */
  lemma StepAdvances(ptr: nat, size: nat)
    requires size < WORD
    ensures NextHeader(ptr, size) == ptr + (BlocksOf(size) + 1) * 512 % WORD
    ensures NextHeader(ptr, size) == ptr <==> WORD - 1023 <= size <= WORD - 512
  {
    assert BlocksOf(size) <= 0x7F_FFFF;
  }

  /** A size of 37777777000 in octal: a scan that does not find its name in that header never leaves it. */
  lemma StepStalls(ptr: nat)
    ensures NextHeader(ptr, WORD - 512) == ptr
  {
    StepAdvances(ptr, WORD - 512);
  }

  /** The scan from `ptr` stays inside the archive and ends: every header has a NUL and a size with which the scan
      goes on, and the last is followed by a block that is not a header. */
  ghost predicate Sound(archive: string, ptr: nat)
    decreases |archive| - ptr
  {
    && ptr + 512 <= |archive|
    && (IsHeader(archive, ptr) ==>
          var size := SizeAt(archive, ptr);
          NUL in archive[ptr..ptr + 512] && NextHeader(ptr, size) > ptr && Sound(archive, NextHeader(ptr, size)))
  }

  function EntryAt(archive: string, ptr: nat): (e: Entry)
    requires IsHeader(archive, ptr)
    ensures |e.header| == 512
  {
    Entry(ptr, archive[ptr..ptr + 512], SizeAt(archive, ptr))
  }

  /** The entries of the archive, in order. */
  function Entries(archive: string, ptr: nat): (es: seq<Entry>)
    ensures forall e :: e in es ==> |e.header| == 512
    decreases |archive| - ptr
  {
    if !IsHeader(archive, ptr) then [] else
      var next := NextHeader(ptr, SizeAt(archive, ptr));
      [EntryAt(archive, ptr)] + if next == ptr then [] else Entries(archive, next)
  }

  // ---------------------------------------------------------------- lookup by name

  datatype Lookup = Found(inode: nat, at: nat, length: nat) | NoEntry | TooLong

  /** The header starts with `f`, followed by its end or by a slash. */
  predicate Matches(header: string, f: string) {
    |f| < |header| && header[..|f|] == f && (header[|f|] == NUL || header[|f|] == SLASH)
  }

  function LookupIn(es: seq<Entry>, f: string, inode: nat): Lookup {
    if es == [] then NoEntry
    else if Matches(es[0].header, f) then
      Found(inode + Slashes(f), es[0].at, if es[0].header[|f|] == NUL then es[0].size else 0)
    else LookupIn(es[1..], f, inode + Slashes(es[0].Name()) + 1)
  }

  function LookupName(archive: string, f: string): Lookup {
    if |f| > 99 then TooLong else LookupIn(Entries(archive, 0), f, 3)
  }

  /** Names of more than 99 characters, and only they, are too long. */
  lemma {:induction false} OnlyLongNames(es: seq<Entry>, f: string, inode: nat)
    ensures LookupIn(es, f, inode) != TooLong
  {
    if es != [] && !Matches(es[0].header, f) {
      OnlyLongNames(es[1..], f, inode + Slashes(es[0].Name()) + 1);
    }
  }

  lemma LongNames(archive: string, f: string)
    ensures LookupName(archive, f) == TooLong <==> |f| > 99
  {
    OnlyLongNames(Entries(archive, 0), f, 3);
  }

  // ---------------------------------------------------------------- lookup by inode number

  datatype Indexed = Named(length: nat, at: nat, size: nat) | Nobody

  /** Where the path component that contains position `pos` ends. */
  function ComponentEnd(name: string, pos: nat): (e: nat)
    requires pos <= |name|
    ensures pos <= e <= |name|
    decreases |name| - pos
  {
    if pos == |name| || name[pos] == SLASH then pos else ComponentEnd(name, pos + 1)
  }

  /** Walks over a name from `pos`, counting slashes, until the count reaches `inode`. */
  function Scan(name: string, pos: nat, curr: nat, inode: nat): Option<nat>
    requires pos <= |name|
    decreases |name| - pos
  {
    if pos == |name| then None
    else if curr == inode then Some(ComponentEnd(name, pos))
    else Scan(name, pos + 1, if name[pos] == SLASH then curr + 1 else curr, inode)
  }

  function IndexIn(es: seq<Entry>, inode: nat, curr: nat): Indexed {
    if es == [] then Nobody else
      match Scan(es[0].Name(), 0, curr, inode)
      case Some(n) => Named(n, es[0].at, es[0].size)
      case None => IndexIn(es[1..], inode, curr + Slashes(es[0].Name()) + 1)
  }

  function LookupIndex(archive: string, inode: nat): Indexed {
    if inode < 3 then Nobody else IndexIn(Entries(archive, 0), inode, 3)
  }

  // ---------------------------------------------------------------- the two agree

  /** A file name as a path walk builds it: not empty, no NUL, no slash at either end. */
  predicate GoodName(f: string) {
    f != [] && NUL !in f && f[0] != SLASH && f[|f| - 1] != SLASH
  }

  /** For names without NUL, matching is about the name of the entry. */
  lemma MatchesName(header: string, f: string)
    requires NUL !in f && NUL in header
    ensures Matches(header, f) <==>
              var n := CString(header); |f| <= |n| && n[..|f|] == f && (|f| == |n| || n[|f|] == SLASH)
  {
    var n := CString(header);
    assert |n| < |header|;
    if Matches(header, f) {
      assert forall i :: 0 <= i < |f| ==> header[i] == header[..|f|][i] && f[i] in f;
      assert |f| < |n| ==> n[|f|] == header[|f|];
      assert n[..|f|] == header[..|f|];
    } else if |f| <= |n| && n[..|f|] == f {
      assert header[..|f|] == f;
    }
  }

  /** The scan finds nothing if the number is beyond the slashes of the name. */
  lemma {:induction false} ScanMisses(name: string, pos: nat, curr: nat, inode: nat)
    requires pos <= |name| && curr + Slashes(name[pos..]) < inode
    ensures Scan(name, pos, curr, inode) == None
    decreases |name| - pos
  {
    if pos < |name| {
      assert name[pos..][1..] == name[pos + 1..];
      ScanMisses(name, pos + 1, if name[pos] == SLASH then curr + 1 else curr, inode);
    }
  }

  lemma {:induction false} ComponentEndAt(name: string, pos: nat, e: nat)
    requires pos <= e <= |name| && SLASH !in name[pos..e] && (e == |name| || name[e] == SLASH)
    ensures ComponentEnd(name, pos) == e
    decreases |name| - pos
  {
    if pos < e {
      assert name[pos] in name[pos..e];
      assert forall c :: c in name[pos + 1..e] ==> c in name[pos..e];
      ComponentEndAt(name, pos + 1, e);
    }
  }

  lemma {:induction false} NoSlashes(s: string)
    requires Slashes(s) == 0
    ensures SLASH !in s
  {
    if s != [] { NoSlashes(s[1..]); }
  }

  /** Counting as many slashes as `f` has, inside a name that starts with `f`, finds the end of `f`. */
  lemma {:induction false} ScanHits(name: string, pos: nat, curr: nat, f: string)
    requires pos < |f| <= |name| && name[..|f|] == f && f[|f| - 1] != SLASH
    requires |f| == |name| || name[|f|] == SLASH
    ensures Scan(name, pos, curr, curr + Slashes(f[pos..])) == Some(|f|)
    decreases |f| - pos
  {
    assert name[pos] == f[pos];
    assert pos + 1 == |f| ==> f[pos..] == [f[pos]];
    if Slashes(f[pos..]) == 0 {
      NoSlashes(f[pos..]);
      assert name[pos..|f|] == f[pos..];
      ComponentEndAt(name, pos, |f|);
    } else {
      assert f[pos..][1..] == f[pos + 1..];
      ScanHits(name, pos + 1, if name[pos] == SLASH then curr + 1 else curr, f);
    }
  }

  lemma {:induction false} LookupInBound(es: seq<Entry>, f: string, curr: nat)
    ensures LookupIn(es, f, curr).Found? ==> LookupIn(es, f, curr).inode >= curr
  {
    if es != [] && !Matches(es[0].header, f) {
      LookupInBound(es[1..], f, curr + Slashes(es[0].Name()) + 1);
    }
  }

  /** Looking up the number that a name got returns the same header and the length of that name. */
  lemma {:induction false} IndexOfFound(es: seq<Entry>, f: string, curr: nat) returns (e: Entry)
    requires f != [] && NUL !in f && f[|f| - 1] != SLASH
    requires forall x :: x in es ==> NUL in x.header
    requires LookupIn(es, f, curr).Found?
    ensures e in es && e.at == LookupIn(es, f, curr).at
    ensures IndexIn(es, LookupIn(es, f, curr).inode, curr) == Named(|f|, e.at, e.size)
    ensures |f| < |e.header| && LookupIn(es, f, curr).length == if e.header[|f|] == NUL then e.size else 0
    ensures |f| <= |e.Name()| && e.Name()[..|f|] == f
  {
    e := es[0];
    var name := e.Name();
    MatchesName(e.header, f);
    if Matches(e.header, f) {
      assert f[0..] == f;
      ScanHits(name, 0, curr, f);
    } else {
      var next := curr + Slashes(name) + 1;
      LookupInBound(es[1..], f, next);
      assert name[0..] == name;
      ScanMisses(name, 0, curr, LookupIn(es, f, curr).inode);
      e := IndexOfFound(es[1..], f, next);
    }
  }

  lemma {:induction false} EntriesSound(archive: string, ptr: nat)
    requires Sound(archive, ptr)
    ensures forall e :: e in Entries(archive, ptr) ==>
              IsHeader(archive, e.at) && e == EntryAt(archive, e.at) && NUL in e.header
    decreases |archive| - ptr
  {
    if IsHeader(archive, ptr) {
      EntriesSound(archive, NextHeader(ptr, SizeAt(archive, ptr)));
    }
  }

  /** The inode number of a name leads back to the entry it was found in and to its length.  The size found
      by name is that of the entry if the name is its full name, and 0 if it is a directory of it. */
  lemma IndexOfLookup(archive: string, f: string) returns (e: Entry)
    requires Sound(archive, 0) && f != [] && NUL !in f && f[|f| - 1] != SLASH
    requires LookupName(archive, f).Found?
    ensures IsHeader(archive, e.at) && e == EntryAt(archive, e.at)
    ensures |f| < 512 && e.header[..|f|] == f
    ensures var r := LookupName(archive, f);
      && r.inode >= 3 && r.at == e.at && r.length == (if e.header[|f|] == NUL then e.size else 0)
      && LookupIndex(archive, r.inode) == Named(|f|, e.at, e.size)
  {
    var es := Entries(archive, 0);
    EntriesSound(archive, 0);
    LookupInBound(es, f, 3);
    e := IndexOfFound(es, f, 3);
    assert e.header[..|f|] == e.Name()[..|f|];
  }

  /** The scan by name and the scan by number give the same size exactly if the name is a full one, not
      that of a directory, or the file is empty. */
  lemma SizesAgree(archive: string, f: string)
    requires Sound(archive, 0) && f != [] && NUL !in f && f[|f| - 1] != SLASH
    requires LookupName(archive, f).Found?
    ensures var r := LookupName(archive, f);
      && LookupIndex(archive, r.inode).Named? && IsHeader(archive, r.at) && |f| < 512
      && (LookupIndex(archive, r.inode).size == r.length <==>
            EntryAt(archive, r.at).header[|f|] == NUL || SizeAt(archive, r.at) == 0)
  {
    var e := IndexOfLookup(archive, f);
  }

  /** An archive with the single file d/f, one byte long. */
  function Sample(): string {
    seq(1536, i => if i == 0 then 'd' else if i == 1 then SLASH else if i == 2 then 'f'
                   else if 0x7c <= i < 0x7c + 10 then '0' else if i == 0x7c + 10 then '1'
                   else if 257 <= i < 262 then "ustar"[i - 257] else NUL)
  }

  lemma SampleSound()
    ensures Sound(Sample(), 0) && IsHeader(Sample(), 0) && SizeAt(Sample(), 0) == 1
  {
    var a := Sample();
    assert a[257..262] == "ustar";
    assert a[0x7c..0x7c + 11] == Zeros(10) + ['1'];
    OctZeros(10);
    OctAppend(Zeros(10), '1');
    assert a[0..512][3] == NUL;
    assert NextHeader(0, 1) == 1024;
    assert a[1024 + 257..1024 + 262][0] == NUL;
    assert Sound(a, 1024);
  }

  /** The directory d of that archive has size 0 by name and size 1 by number. */
  lemma SizesDiffer()
    ensures Sound(Sample(), 0)
    ensures LookupName(Sample(), "d") == Found(3, 0, 0) && LookupIndex(Sample(), 3) == Named(1, 0, 1)
  {
    var a := Sample();
    SampleSound();
    var header := EntryAt(a, 0).header;
    assert Entries(a, 0)[0] == EntryAt(a, 0);
    assert header[..1] == "d" && header[1] == SLASH;
    assert Matches(header, "d") && Slashes("d") == 0;
    var e := IndexOfLookup(a, "d");
  }

  /** Distinct names have distinct inode numbers. */
  lemma InodeInjective(archive: string, f: string, g: string)
    requires Sound(archive, 0)
    requires f != [] && NUL !in f && f[|f| - 1] != SLASH && LookupName(archive, f).Found?
    requires g != [] && NUL !in g && g[|g| - 1] != SLASH && LookupName(archive, g).Found?
    requires LookupName(archive, f).inode == LookupName(archive, g).inode
    ensures f == g
  {
    var e := IndexOfLookup(archive, f);
    var e' := IndexOfLookup(archive, g);
  }

  /** A header that matches a name matches the directories of that name. */
  lemma DirectoryMatches(header: string, d: string, f: string)
    requires Matches(header, f) && |d| < |f| && f[..|d|] == d && f[|d|] == SLASH
    ensures Matches(header, d)
  {
    assert header[..|f|][..|d|] == header[..|d|] == d;
    assert header[|d|] == header[..|f|][|d|];
  }

  /** A directory of a name that is found is found as well. */
  lemma {:induction false} DirectoryFound(es: seq<Entry>, d: string, f: string, curr: nat, c: nat)
    requires |d| < |f| && f[..|d|] == d && f[|d|] == SLASH
    requires LookupIn(es, f, curr).Found?
    ensures LookupIn(es, d, c).Found?
  {
    if Matches(es[0].header, f) {
      DirectoryMatches(es[0].header, d, f);
    } else if !Matches(es[0].header, d) {
      var n := Slashes(es[0].Name()) + 1;
      DirectoryFound(es[1..], d, f, curr + n, c + n);
    }
  }

  // ---------------------------------------------------------------- the scans as the kernel runs them

  /** parse_oct: the octal value modulo 2^32, and so the value itself exactly if it fits in a word. */
  method ParseOct(s: string) returns (n: nat)
    ensures n == OctValue(s) % WORD
    ensures n == OctValue(s) <==> 0 <= OctValue(s) < WORD
  {
    n := 0;
    for i := 0 to |s|
      invariant n == OctValue(s[..i]) % WORD
    {
      assert s[..i + 1] == s[..i] + [s[i]];
      OctAppend(s[..i], s[i]);
      OctStep(OctValue(s[..i]), n, Digit(s[i]));
      n := (n * 8 + Digit(s[i])) % WORD;
    }
    assert s[..|s|] == s;
  }

  lemma OctStep(x: int, n: nat, d: int)
    requires n == x % WORD
    ensures (n * 8 + d) % WORD == (8 * x + d) % WORD
  {
    assert 8 * x + d == n * 8 + d + WORD * (8 * (x / WORD));
  }

  lemma NineBits(d: int, n: nat)
    ensures Times8(d, n + 3) == 512 * Times8(d, n)
  {
    assert Times8(d, n + 2) == 8 * Times8(d, n + 1);
  }

  lemma ThirtyBits(d: int)
    ensures Times8(d, 10) == 0x4000_0000 * d
  {
    NineBits(d, 0);
    NineBits(d, 3);
    NineBits(d, 6);
  }

  /** The size field has eleven digits, 33 bits: it is read correctly exactly if the first is below 4. */
  lemma SizeFits(s: string)
    requires |s| == 11 && forall c :: c in s ==> '0' <= c <= '7'
    ensures OctValue(s) % WORD == OctValue(s) <==> s[0] <= '3'
  {
    assert s[0] in s && forall c :: c in s[1..] ==> c in s;
    OctBound(s[1..]);
    ThirtyBits(Digit(s[0]));
    ThirtyBits(1);
  }

  /** Four gigabytes are read as nothing. */
  lemma SizeWraps()
    ensures OctValue("40000000000") == WORD
  {
    var s := "40000000000";
    assert s == ['4'] + Zeros(10);
    assert s[1..] == Zeros(10);
    OctZeros(10);
    ThirtyBits(4);
  }

  /** The size field of the header at `ptr`. */
  method ReadSize(archive: string, ptr: nat) returns (size: nat)
    requires IsHeader(archive, ptr)
    ensures size == SizeAt(archive, ptr)
  {
    size := ParseOct(archive[ptr + 0x7c..ptr + 0x7c + 11]);
  }

  /** The name of a header, as it lies in the archive from `ptr` on: up to the first NUL. */
  ghost predicate NameAt(archive: string, ptr: nat, name: string) {
    && ptr + |name| < |archive| && archive[ptr + |name|] == NUL
    && forall i {:trigger archive[i]} :: ptr <= i < ptr + |name| ==> archive[i] == name[i - ptr] && archive[i] != NUL
  }

  /** Counts the slashes before the first NUL of a header. */
  method CountSlashes(archive: string, ptr: nat, inode: nat, ghost name: string) returns (r: nat)
    requires NameAt(archive, ptr, name)
    ensures r == inode + Slashes(name)
  {
    assert name[0..] == name;
    var p: nat := ptr;
    r := inode;
    while archive[p] != NUL
      invariant ptr <= p <= ptr + |name|
      invariant r + Slashes(name[p - ptr..]) == inode + Slashes(name)
      decreases ptr + |name| - p
    {
      assert name[p - ptr..][1..] == name[p - ptr + 1..];
      if archive[p] == SLASH { r := r + 1; }
      p := p + 1;
    }
  }

  /** Counts the slashes of a name. */
  method CountIn(f: string, inode: nat) returns (r: nat)
    ensures r == inode + Slashes(f)
  {
    r := inode;
    for i := 0 to |f|
      invariant r + Slashes(f[i..]) == inode + Slashes(f)
    {
      assert f[i..][1..] == f[i + 1..];
      if f[i] == SLASH { r := r + 1; }
    }
  }

  /** What a scan from `ptr` meets: the entries `es`, each with a NUL in its header and with the next behind it, and
      then a block that is not a header. */
  ghost predicate Scans(archive: string, ptr: nat, es: seq<Entry>)
    decreases |es|
  {
    if es == [] then ptr + 512 <= |archive| && !IsHeader(archive, ptr)
    else
      && IsHeader(archive, ptr) && es[0] == EntryAt(archive, ptr) && NUL in es[0].header
      && ptr < NextHeader(ptr, es[0].size) && Scans(archive, NextHeader(ptr, es[0].size), es[1..])
  }

  lemma {:induction false} SoundScans(archive: string, ptr: nat)
    requires Sound(archive, ptr)
    ensures Scans(archive, ptr, Entries(archive, ptr))
    decreases |archive| - ptr
  {
    if IsHeader(archive, ptr) {
      var next := NextHeader(ptr, SizeAt(archive, ptr));
      SoundScans(archive, next);
      assert Entries(archive, ptr)[1..] == Entries(archive, next);
    }
  }

  /** The name of an entry, read off the archive. */
  lemma EntryName(archive: string, ptr: nat, e: Entry)
    requires IsHeader(archive, ptr) && e == EntryAt(archive, ptr) && NUL in e.header
    ensures NameAt(archive, ptr, e.Name())
  {
    var name := e.Name();
    assert e.header[..|e.header|] == e.header;
    assert e.header[|name|] == archive[ptr + |name|];
    forall i {:trigger archive[i]} | ptr <= i < ptr + |name| ensures archive[i] == name[i - ptr] && archive[i] != NUL {
      assert name[i - ptr] == e.header[i - ptr] && name[i - ptr] in name;
    }
  }

  /** Passes over the header at `ptr`, counting its name and the slashes in it. */
  method SkipHeader(archive: string, ptr: nat, inode: nat, ghost es: seq<Entry>) returns (ptr': nat, inode': nat)
    requires es != [] && Scans(archive, ptr, es)
    ensures ptr < ptr' && Scans(archive, ptr', es[1..])
    ensures inode' == inode + Slashes(es[0].Name()) + 1
  {
    EntryName(archive, ptr, es[0]);
    var size := ReadSize(archive, ptr);
    inode' := CountSlashes(archive, ptr, inode, es[0].Name());
    ptr', inode' := NextHeader(ptr, size), inode' + 1;
  }

  /** Whether entry `e`, whose header is at `ptr`, is the one looked for, and whether the name ends there. */
  method MatchAt(archive: string, ptr: nat, f: string, ghost e: Entry) returns (hit: bool, ends: bool)
    requires IsHeader(archive, ptr) && e == EntryAt(archive, ptr) && |f| <= 99
    ensures hit <==> Matches(e.header, f)
    ensures ends <==> e.header[|f|] == NUL
  {
    var last := archive[ptr + |f|];
    assert archive[ptr..ptr + 512][..|f|] == archive[ptr..ptr + |f|];
    hit := archive[ptr..ptr + |f|] == f && (last == NUL || last == SLASH);
    ends := last == NUL;
  }

  method TarLookup(archive: string, f: string) returns (r: Lookup)
    requires Sound(archive, 0)
    ensures r == LookupName(archive, f)
  {
    if |f| > 99 { return TooLong; }
    SoundScans(archive, 0);
    r := FindName(archive, f, Entries(archive, 0), LookupName(archive, f));
  }

  lemma NameMissed(es: seq<Entry>, f: string, inode: nat)
    requires es != [] && !Matches(es[0].header, f)
    ensures LookupIn(es, f, inode) == LookupIn(es[1..], f, inode + Slashes(es[0].Name()) + 1)
  {
  }

  lemma NameHit(es: seq<Entry>, f: string, inode: nat)
    requires es != [] && Matches(es[0].header, f)
    ensures LookupIn(es, f, inode) ==
              Found(inode + Slashes(f), es[0].at, if es[0].header[|f|] == NUL then es[0].size else 0)
  {
  }

  /** The scan by name, whose result is `answer`. */
  method FindName(archive: string, f: string, ghost all: seq<Entry>, ghost answer: Lookup) returns (r: Lookup)
    requires Scans(archive, 0, all) && |f| <= 99 && answer == LookupIn(all, f, 3)
    ensures r == answer
  {
    var ptr: nat, inode: nat := 0, 3;
    ghost var es := all;
    while IsHeader(archive, ptr)
      invariant Scans(archive, ptr, es)
      invariant answer == LookupIn(es, f, inode)
      decreases |es|
    {
      var hit, ends := MatchAt(archive, ptr, f, es[0]);
      if hit {
        NameHit(es, f, inode);
        var size := ReadSize(archive, ptr);
        inode := CountIn(f, inode);
        return Found(inode, ptr, if ends then size else 0);
      }
      NameMissed(es, f, inode);
      ptr, inode := SkipHeader(archive, ptr, inode, es);
      es := es[1..];
    }
    return NoEntry;
  }

  method TarLookupByIndex(archive: string, inode: nat) returns (r: Indexed)
    requires Sound(archive, 0)
    ensures r == LookupIndex(archive, inode)
  {
    if inode < 3 { return Nobody; }
    SoundScans(archive, 0);
    r := FindIndex(archive, inode, Entries(archive, 0), LookupIndex(archive, inode));
  }

  lemma IndexHit(es: seq<Entry>, inode: nat, curr: nat, n: nat)
    requires es != [] && Scan(es[0].Name(), 0, curr, inode) == Some(n)
    ensures IndexIn(es, inode, curr) == Named(n, es[0].at, es[0].size)
  {
  }

  lemma IndexMissed(es: seq<Entry>, inode: nat, curr: nat)
    requires es != [] && Scan(es[0].Name(), 0, curr, inode) == None
    ensures IndexIn(es, inode, curr) == IndexIn(es[1..], inode, curr + Slashes(es[0].Name()) + 1)
  {
  }

  /** One round of the scan by number. */
  method IndexRound(archive: string, ptr: nat, inode: nat, curr: nat, ghost es: seq<Entry>)
      returns (r: Indexed, ptr': nat, curr': nat)
    requires es != [] && Scans(archive, ptr, es)
    ensures r.Named? ==> r == IndexIn(es, inode, curr)
    ensures !r.Named? ==> Scans(archive, ptr', es[1..]) && IndexIn(es, inode, curr) == IndexIn(es[1..], inode, curr')
  {
    EntryName(archive, ptr, es[0]);
    var found, length := ScanHeader(archive, ptr, curr, inode, es[0].Name());
    if found {
      IndexHit(es, inode, curr, length);
      var size := ReadSize(archive, ptr);
      return Named(length, ptr, size), ptr, curr;
    }
    IndexMissed(es, inode, curr);
    r := Nobody;
    ptr', curr' := SkipHeader(archive, ptr, curr, es);
  }

  /** The scan by number, whose result is `answer`. */
  method FindIndex(archive: string, inode: nat, ghost all: seq<Entry>, ghost answer: Indexed) returns (r: Indexed)
    requires Scans(archive, 0, all) && answer == IndexIn(all, inode, 3)
    ensures r == answer
  {
    var ptr: nat, curr: nat := 0, 3;
    ghost var es := all;
    while IsHeader(archive, ptr)
      invariant Scans(archive, ptr, es)
      invariant answer == IndexIn(es, inode, curr)
      decreases |es|
    {
      r, ptr, curr := IndexRound(archive, ptr, inode, curr, es);
      if r.Named? { return; }
      es := es[1..];
    }
    return Nobody;
  }

  /** The inner loops of the lookup by number. */
  method ScanHeader(archive: string, ptr: nat, curr: nat, inode: nat, ghost name: string)
      returns (found: bool, length: nat)
    requires NameAt(archive, ptr, name)
    ensures Scan(name, 0, curr, inode) == if found then Some(length) else None
  {
    var p: nat, c: nat := ptr, curr;
    while archive[p] != NUL
      invariant ptr <= p <= ptr + |name|
      invariant Scan(name, 0, curr, inode) == Scan(name, p - ptr, c, inode)
      decreases ptr + |name| - p
    {
      if c == inode {
        p := SkipComponent(archive, ptr, p, name);
        return true, p - ptr;
      }
      if archive[p] == SLASH { c := c + 1; }
      p := p + 1;
    }
    return false, 0;
  }

  method SkipComponent(archive: string, ptr: nat, start: nat, ghost name: string) returns (p: nat)
    requires NameAt(archive, ptr, name) && ptr <= start <= ptr + |name|
    ensures p - ptr == ComponentEnd(name, start - ptr)
  {
    p := start;
    while archive[p] != NUL && archive[p] != SLASH
      invariant start <= p <= ptr + |name|
      invariant ComponentEnd(name, start - ptr) == ComponentEnd(name, p - ptr)
      decreases ptr + |name| - p
    {
      p := p + 1;
    }
  }
}
