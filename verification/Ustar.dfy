/**
 * The archive reader of src/fs/ustar.c against a writer of the ustar interchange
 * format: mounting what was written lists what was written.
 */
module Ustar {
  import opened Words

  type Byte = b: nat | b < 0x100

  const BLOCK := 512
  const SIZE_FIELD := 124     // offset and length of the size field
  const SIZE_LEN := 12
  const TYPE_FIELD := 156
  const ZERO: Byte := 0x30    // '0'
  const SLASH: Byte := 0x2F
  const DOT: Byte := 0x2E

  /** An entry of the list ustar_mount builds; `data` is an offset into the image. */
  datatype Entry = Entry(name: seq<Byte>, data: nat, size: nat)

  // ----- the reader -----

  predicate IsOctal(b: Byte) {
    0x30 <= b <= 0x37
  }

  /** Digits before the first byte that is not one. */
  function OctalValue(s: seq<Byte>, v: nat): nat {
    if s == [] || !IsOctal(s[0]) then v else OctalValue(s[1..], 8 * v + (s[0] - 0x30))
  }

  /** oct_to_size: shifting left by three and or-ing a digit in is 8 * v + digit; twelve digits fit in 64 bits. */
  method OctToSize(s: seq<Byte>) returns (v: nat)
    ensures v == OctalValue(s, 0)
  {
    v := 0;
    var i := 0;
    assert s[0..] == s;
    while i < |s| && 0x30 <= s[i] <= 0x37
      invariant i <= |s| && OctalValue(s[i..], v) == OctalValue(s, 0)
    {
      v := 8 * v + (s[i] - 0x30);
      i := i + 1;
    }
  }

  /** The NUL-terminated string at offset off, as strdup copies it. */
  function CString(image: seq<Byte>, off: nat): (s: seq<Byte>)
    requires off <= |image|
    ensures off + |s| <= |image| && s == image[off..off + |s|] && 0 !in s
    ensures off + |s| < |image| ==> image[off + |s|] == 0
    decreases |image| - off
  {
    if off == |image| || image[off] == 0 then [] else [image[off]] + CString(image, off + 1)
  }

  /** One leading "/" or "./" is stripped. */
  function Normalize(name: seq<Byte>): seq<Byte> {
    if |name| >= 1 && name[0] == SLASH then name[1..]
    else if |name| >= 2 && name[0] == DOT && name[1] == SLASH then name[2..]
    else name
  }

  predicate IsFile(typeflag: Byte) {
    typeflag == ZERO || typeflag == 0
  }

  /** Header and data, rounded up to whole blocks. */
  function Advance(size: nat): nat {
    BLOCK + (size + 511) / BLOCK * BLOCK
  }

  /** The entries from offset off on, in the order of the image. */
  function Scan(image: seq<Byte>, off: nat): seq<Entry>
    decreases |image| - off
  {
    if off + BLOCK > |image| || image[off] == 0 then [] else
    var size := OctalValue(image[off + SIZE_FIELD..off + SIZE_FIELD + SIZE_LEN], 0);
    var rest := Scan(image, off + Advance(size));
    if IsFile(image[off + TYPE_FIELD]) then [Entry(Normalize(CString(image, off)), off + BLOCK, size)] + rest else rest
  }

  function Reversed<T>(s: seq<T>): (r: seq<T>)
    ensures |r| == |s|
  {
    if s == [] then [] else Reversed(s[1..]) + [s[0]]
  }

  /** The name of the header at offset off, without a leading "/" or "./". */
  method EntryName(image: seq<Byte>, off: nat) returns (name: seq<Byte>)
    requires off <= |image|
    ensures name == Normalize(CString(image, off))
  {
    name := CString(image, off);
    if |name| >= 1 && name[0] == SLASH {
      name := name[1..];
    } else if |name| >= 2 && name[0] == DOT && name[1] == SLASH {
      name := name[2..];
    }
  }

  /** Behind the header and the blocks of data. */
  method NextHeader(off: nat, size: nat) returns (next: nat)
    ensures next == off + Advance(size) && off < next
  {
    var blocks := (size + 511) / 512;
    next := off + 512 + blocks * 512;
  }

  /** ustar_mount: the list of entries, the last one of the image first. */
  method Mount(image: seq<Byte>) returns (entries: seq<Entry>)
    ensures entries == Reversed(Scan(image, 0))
  {
    hide CString, OctalValue, Normalize, Advance, IsFile;
    entries := [];
    var off := 0;
    while off + BLOCK <= |image|
      invariant Reversed(Scan(image, off)) + entries == Reversed(Scan(image, 0))
      decreases |image| - off
    {
      if image[off] == 0 { break; }
      var size := OctToSize(image[off + SIZE_FIELD..off + SIZE_FIELD + SIZE_LEN]);
      var name := EntryName(image, off);
      if IsFile(image[off + TYPE_FIELD]) {
        var e := Entry(name, off + BLOCK, size);
        ghost var rest := Scan(image, off + Advance(size));
        assert ([e] + rest)[1..] == rest;
        assert Reversed([e] + rest) + entries == Reversed(rest) + ([e] + entries);
        entries := [e] + entries;
      }
      off := NextHeader(off, size);
    }
  }

  /** ustar_open: the first entry of the list with the given name. */
  method Open(entries: seq<Entry>, path: seq<Byte>) returns (e: Option<Entry>)
    ensures e == Find(entries, Relative(path))
  {
    var name := path;
    if |path| >= 1 && path[0] == SLASH { name := path[1..]; }
    var i := 0;
    while i < |entries|
      invariant i <= |entries| && Find(entries[i..], name) == Find(entries, name)
    {
      if entries[i].name == name { return Some(entries[i]); }
      i := i + 1;
    }
    return None;
  }

  function Relative(path: seq<Byte>): seq<Byte> {
    if path != [] && path[0] == SLASH then path[1..] else path
  }

  function Find(entries: seq<Entry>, name: seq<Byte>): Option<Entry> {
    if entries == [] then None
    else if entries[0].name == name then Some(entries[0]) else Find(entries[1..], name)
  }

  /** ustar_file_read: how many bytes are copied, and which; off + len is a sum of size_t. */
  function ReadLength(e: Entry, off: Word, len: Word): nat {
    if off >= e.size then 0 else if (off + len) % TWO64 > e.size then e.size - off else len
  }

  /** What a reader expects: the request, cut at the end of the file. */
  function CutToFile(size: nat, off: nat, len: nat): nat {
    if off >= size then 0 else if off + len > size then size - off else len
  }

  /** The sum does not wrap around, or is not made. */
  predicate SumFits(size: nat, off: Word, len: Word) {
    off >= size || off + len < TWO64
  }

  /** Exactly then the request is cut as it should be; otherwise it is not cut at all. */
  lemma CutWhenSumFits(e: Entry, off: Word, len: Word)
    requires e.size < TWO64
    ensures ReadLength(e, off, len) == CutToFile(e.size, off, len) <==> SumFits(e.size, off, len)
  {
  }

  method FileRead(image: seq<Byte>, e: Entry, buf: array<Byte>, off: Word, len: Word) returns (n: nat)
    requires ReadLength(e, off, len) <= buf.Length && (off < e.size ==> e.data + off + ReadLength(e, off, len) <= |image|)
    modifies buf
    ensures n == ReadLength(e, off, len) && buf[n..] == old(buf[..])[n..]
    ensures off < e.size ==> buf[..n] == image[e.data + off..e.data + off + n]
  {
    if off >= e.size { return 0; }
    n := len;
    if (off + len) % TWO64 > e.size { n := e.size - off; }
    forall i | 0 <= i < n { buf[i] := image[e.data + off + i]; }
  }

  // ----- the writer -----

  /** The fields between the modelled ones; the reader ignores them. */
  datatype Others = Others(owner: seq<Byte>, times: seq<Byte>, rest: seq<Byte>)

  datatype Record = Record(name: seq<Byte>, typeflag: Byte, data: seq<Byte>, others: Others)

  /** The name is NUL-terminated inside its field and the size has eleven octal digits. */
  predicate WellFormed(r: Record) {
    && 0 < |r.name| < 100 && 0 !in r.name && |r.data| < Power8(11)
    && |r.others.owner| == 24 && |r.others.times| == 20 && |r.others.rest| == 355
  }

  function Power8(n: nat): (p: nat)
    ensures 0 < p
  {
    if n == 0 then 1 else 8 * Power8(n - 1)
  }

  function Zeros(n: nat): (s: seq<Byte>)
    ensures |s| == n && forall i :: 0 <= i < n ==> s[i] == 0
  {
    seq(n, _ => 0)
  }

  /** The n low octal digits of v, most significant first. */
  function Octal(v: nat, n: nat): (s: seq<Byte>)
    ensures |s| == n
  {
    if n == 0 then [] else Octal(v / 8, n - 1) + [0x30 + v % 8]
  }

  function Header(r: Record): (h: seq<Byte>)
    requires WellFormed(r)
    ensures |h| == BLOCK
  {
    r.name + Zeros(100 - |r.name|) + r.others.owner + (Octal(|r.data|, 11) + [0]) + r.others.times + [r.typeflag] + r.others.rest
  }

  /** A record occupies whole blocks. */
  function Encoded(r: Record): (s: seq<Byte>)
    requires WellFormed(r)
    ensures |s| == Advance(|r.data|)
  {
    Header(r) + r.data + Zeros((|r.data| + 511) / BLOCK * BLOCK - |r.data|)
  }

  predicate AllWellFormed(rs: seq<Record>) {
    forall i :: 0 <= i < |rs| ==> WellFormed(rs[i])
  }

  function Archive(rs: seq<Record>): seq<Byte>
    requires AllWellFormed(rs)
  {
    if rs == [] then [] else Encoded(rs[0]) + Archive(rs[1..])
  }

  /** What may follow the records: zeros, or less than a block. */
  predicate IsEnd(trailer: seq<Byte>) {
    |trailer| < BLOCK || trailer[0] == 0
  }

  /** The entry of a record at offset off, if it is a regular file. */
  function Listed(r: Record, off: nat): seq<Entry> {
    if IsFile(r.typeflag) then [Entry(Normalize(r.name), off + BLOCK, |r.data|)] else []
  }

  /** The entries of the regular files when the archive starts at offset off. */
  function Listing(rs: seq<Record>, off: nat): seq<Entry>
    requires AllWellFormed(rs)
  {
    if rs == [] then [] else Listed(rs[0], off) + Listing(rs[1..], off + Advance(|rs[0].data|))
  }

  // ----- the reader inverts the writer -----

  lemma {:induction false} OctalInverse(v: nat, n: nat, t: seq<Byte>, acc: nat)
    requires v < Power8(n)
    ensures OctalValue(Octal(v, n) + t, acc) == OctalValue(t, acc * Power8(n) + v)
  {
    if n == 0 {
      assert Octal(v, 0) + t == t;
    } else {
      var d: Byte := 0x30 + v % 8;
      assert Octal(v, n) + t == Octal(v / 8, n - 1) + ([d] + t);
      OctalInverse(v / 8, n - 1, [d] + t, acc);
      assert ([d] + t)[1..] == t;
      MulAcross(acc, Power8(n - 1));
    }
  }

  lemma MulAcross(a: nat, p: nat)
    ensures 8 * (a * p) == a * (8 * p)
  {
  }

  lemma SizeField(size: nat)
    requires size < Power8(11)
    ensures OctalValue(Octal(size, 11) + [0], 0) == size
  {
    hide Octal, Power8;
    OctalInverse(size, 11, [0], 0);
  }

  /** Where the reader looks, it finds the fields of the header. */
  lemma HeaderFields(r: Record)
    requires WellFormed(r)
    ensures var h := Header(r);
            && h[..|r.name|] == r.name && h[|r.name|] == 0
            && h[SIZE_FIELD..SIZE_FIELD + SIZE_LEN] == Octal(|r.data|, 11) + [0] && h[TYPE_FIELD] == r.typeflag
  {
    hide Power8, Octal;
    var a, b := r.name + Zeros(100 - |r.name|) + r.others.owner, Octal(|r.data|, 11) + [0];
    assert Header(r) == a + b + (r.others.times + [r.typeflag] + r.others.rest);
  }

  lemma {:induction false} CStringIs(image: seq<Byte>, off: nat, n: nat)
    requires off + n < |image| && image[off + n] == 0 && 0 !in image[off..off + n]
    ensures CString(image, off) == image[off..off + n]
    decreases n
  {
    if n > 0 {
      assert image[off] == image[off..off + n][0];
      assert image[off..off + n][1..] == image[off + 1..off + 1 + (n - 1)];
      CStringIs(image, off + 1, n - 1);
    }
  }

  /** The reader's step over one record. */
  lemma ScanRecord(pre: seq<Byte>, r: Record, post: seq<Byte>)
    requires WellFormed(r)
    ensures var image, off := pre + Encoded(r) + post, |pre|;
            && off + BLOCK <= |image| && image[off] != 0 && image[off + TYPE_FIELD] == r.typeflag
            && CString(image, off) == r.name
            && OctalValue(image[off + SIZE_FIELD..off + SIZE_FIELD + SIZE_LEN], 0) == |r.data|
            && image[off + BLOCK..off + BLOCK + |r.data|] == r.data
  {
    hide Power8, Octal, Header, OctalValue, Advance, CString, Encoded;
    EncodedIs(pre, r, post);
    HeaderFields(r);
    SizeField(|r.data|);
    ScanFields(pre, Header(r), r, Zeros((|r.data| + 511) / BLOCK * BLOCK - |r.data|) + post);
  }

  lemma EncodedIs(pre: seq<Byte>, r: Record, post: seq<Byte>)
    requires WellFormed(r)
    ensures pre + Encoded(r) + post == pre + Header(r) + (r.data + (Zeros((|r.data| + 511) / BLOCK * BLOCK - |r.data|) + post))
  {
    hide WellFormed, Header, Zeros;
  }

  /** The fields of a header h anywhere in an image. */
  lemma ScanFields(pre: seq<Byte>, h: seq<Byte>, r: Record, tail: seq<Byte>)
    requires |h| == BLOCK && 0 < |r.name| < 100 && 0 !in r.name
    requires h[..|r.name|] == r.name && h[|r.name|] == 0 && h[TYPE_FIELD] == r.typeflag
    ensures var image, off := pre + h + (r.data + tail), |pre|;
            && off + BLOCK <= |image| && image[off] != 0 && image[off + TYPE_FIELD] == r.typeflag
            && CString(image, off) == r.name
            && image[off + SIZE_FIELD..off + SIZE_FIELD + SIZE_LEN] == h[SIZE_FIELD..SIZE_FIELD + SIZE_LEN]
            && image[off + BLOCK..off + BLOCK + |r.data|] == r.data
  {
    hide CString;
    var image, off := pre + h + (r.data + tail), |pre|;
    Inside(pre, h, r.data + tail);
    assert image[off..off + |r.name|] == h[..|r.name|];
    assert image[off] == h[0] == h[..|r.name|][0] && r.name[0] in r.name;
    CStringIs(image, off, |r.name|);
  }

  lemma Inside(pre: seq<Byte>, h: seq<Byte>, post: seq<Byte>)
    ensures forall i :: 0 <= i < |h| ==> (pre + h + post)[|pre| + i] == h[i]
    ensures forall i, j :: 0 <= i <= j <= |h| ==> (pre + h + post)[|pre| + i..|pre| + j] == h[i..j]
  {
  }

  lemma ScanStep(image: seq<Byte>, off: nat, r: Record)
    requires off + BLOCK <= |image| && image[off] != 0 && image[off + TYPE_FIELD] == r.typeflag && CString(image, off) == r.name
    requires OctalValue(image[off + SIZE_FIELD..off + SIZE_FIELD + SIZE_LEN], 0) == |r.data|
    ensures Scan(image, off) == Listed(r, off) + Scan(image, off + Advance(|r.data|))
  {
    hide Normalize, CString, OctalValue, Advance;
  }

  lemma {:induction false} ScanArchive(pre: seq<Byte>, rs: seq<Record>, trailer: seq<Byte>)
    requires AllWellFormed(rs) && IsEnd(trailer)
    ensures Scan(pre + Archive(rs) + trailer, |pre|) == Listing(rs, |pre|)
    decreases |rs|
  {
    hide WellFormed, Encoded, Scan, Listed, Advance, Archive, Listing, IsEnd;
    Unfold(rs, |pre|);
    if rs == [] {
      assert pre + [] + trailer == pre + trailer;
      ScanEnd(pre, trailer);
    } else {
      var e, rest := Encoded(rs[0]), Archive(rs[1..]);
      Regroup(pre, e, rest, trailer);
      ScanRecord(pre, rs[0], rest + trailer);
      ScanStep(pre + e + (rest + trailer), |pre|, rs[0]);
      ScanArchive(pre + e, rs[1..], trailer);
    }
  }

  lemma Unfold(rs: seq<Record>, off: nat)
    requires AllWellFormed(rs)
    ensures rs == [] ==> Archive(rs) == [] && Listing(rs, off) == []
    ensures rs != [] ==> AllWellFormed(rs[1..]) && Archive(rs) == Encoded(rs[0]) + Archive(rs[1..])
                         && Listing(rs, off) == Listed(rs[0], off) + Listing(rs[1..], off + |Encoded(rs[0])|)
  {
  }

  lemma Regroup<T>(a: seq<T>, b: seq<T>, c: seq<T>, d: seq<T>)
    ensures a + (b + c) + d == a + b + (c + d) == (a + b) + c + d
  {
  }

  lemma ScanEnd(pre: seq<Byte>, trailer: seq<Byte>)
    requires IsEnd(trailer)
    ensures Scan(pre + trailer, |pre|) == []
  {
    assert trailer != [] ==> (pre + trailer)[|pre|] == trailer[0];
  }

  /** Mounting what the writer wrote lists the regular files, the last one first. */
  lemma MountInvertsWriter(rs: seq<Record>, trailer: seq<Byte>)
    requires AllWellFormed(rs) && IsEnd(trailer)
    ensures Reversed(Scan(Archive(rs) + trailer, 0)) == Reversed(Listing(rs, 0))
  {
    hide WellFormed, Scan, Listing, Archive;
    ScanArchive([], rs, trailer);
    assert [] + Archive(rs) + trailer == Archive(rs) + trailer;
  }

  // ----- opening by name -----

  predicate Named(r: Record, name: seq<Byte>) {
    IsFile(r.typeflag) && Normalize(r.name) == name
  }

  /** A name without a leading "/" or "./". */
  predicate Plain(n: seq<Byte>) {
    n != [] && n[0] != '/' as int && !(|n| >= 2 && n[0] == '.' as int && n[1] == '/' as int)
  }

  /**
   * Opened by a plain name n, or by "/" and n, are exactly the regular files (type
   * '0', or NUL in old archives) that were written as n, as "/" and n, or as "./" and n.
   */
  lemma OpenedNames(r: Record, n: seq<Byte>, path: seq<Byte>)
    requires Plain(n) && (path == n || path == ['/' as int] + n)
    ensures Named(r, Relative(path)) <==>
            && (r.typeflag == '0' as int || r.typeflag == 0)
            && (r.name == n || r.name == ['/' as int] + n || r.name == ['.' as int, '/' as int] + n)
  {
    assert (['/' as int] + n)[1..] == n && (['.' as int, '/' as int] + n)[2..] == n;
    if r.name != [] && r.name[0] == SLASH {
      assert r.name == [SLASH] + r.name[1..];
    } else if |r.name| >= 2 && r.name[0] == DOT && r.name[1] == SLASH {
      assert r.name == [DOT, SLASH] + r.name[2..];
    }
  }

  /** Number of the last regular file of that name. */
  function LastNamed(rs: seq<Record>, name: seq<Byte>): (k: Option<nat>)
    ensures k.None? ==> forall i :: 0 <= i < |rs| ==> !Named(rs[i], name)
    ensures k.Some? ==> k.value < |rs| && Named(rs[k.value], name) && forall i :: k.value < i < |rs| ==> !Named(rs[i], name)
  {
    if rs == [] then None
    else if Named(rs[|rs| - 1], name) then Some(|rs| - 1) else LastNamed(rs[..|rs| - 1], name)
  }

  /** Offset of record k. */
  function Offset(rs: seq<Record>, k: nat): nat
    requires k <= |rs|
  {
    if k == 0 then 0 else Offset(rs, k - 1) + Advance(|rs[k - 1].data|)
  }

  lemma {:induction false} ListingSnoc(rs: seq<Record>, r: Record, off: nat)
    requires AllWellFormed(rs) && WellFormed(r)
    ensures AllWellFormed(rs + [r])
    ensures Listing(rs + [r], off) == Listing(rs, off) + Listed(r, off + Offset(rs, |rs|))
  {
    hide WellFormed, Listed, Advance, Listing, Archive, Encoded;
    Unfold(rs, off);
    Unfold(rs + [r], off);
    if rs == [] {
      Unfold([], off + |Encoded(r)|);
      assert [] + [r] == [r] && [r][1..] == [];
      assert Listed(r, off) + [] == Listed(r, off) == [] + Listed(r, off);
    } else {
      var next := off + |Encoded(rs[0])|;
      assert (rs + [r])[1..] == rs[1..] + [r];
      ListingSnoc(rs[1..], r, next);
      OffsetTail(rs, |rs|);
      Assoc(Listed(rs[0], off), Listing(rs[1..], next), Listed(r, off + Offset(rs, |rs|)));
    }
  }

  lemma Assoc<T>(a: seq<T>, b: seq<T>, c: seq<T>)
    ensures a + (b + c) == a + b + c
  {
  }

  lemma {:induction false} OffsetTail(rs: seq<Record>, k: nat)
    requires 0 < k <= |rs|
    ensures Offset(rs, k) == Advance(|rs[0].data|) + Offset(rs[1..], k - 1)
  {
    if k > 1 { OffsetTail(rs, k - 1); }
  }

  lemma {:induction false} OffsetPrefix(rs: seq<Record>, n: nat, k: nat)
    requires k <= n <= |rs|
    ensures Offset(rs[..n], k) == Offset(rs, k)
  {
    if k > 0 { OffsetPrefix(rs, n, k - 1); }
  }

  lemma {:induction false} ReversedSnoc<T>(s: seq<T>, x: T)
    ensures Reversed(s + [x]) == [x] + Reversed(s)
  {
    if s != [] {
      assert (s + [x])[1..] == s[1..] + [x];
      ReversedSnoc(s[1..], x);
    } else {
      assert [] + [x] == [x];
    }
  }

  /** A name finds the last regular file of that name, which is the one a later entry of the archive replaces. */
  lemma {:induction false} OpenFindsLast(rs: seq<Record>, name: seq<Byte>)
    requires AllWellFormed(rs)
    ensures Find(Reversed(Listing(rs, 0)), name) ==
            match LastNamed(rs, name)
            case None => None
            case Some(k) => Some(Entry(name, Offset(rs, k) + BLOCK, |rs[k].data|))
  {
    hide WellFormed, Advance, Listing, Reversed, Find, Normalize;
    if rs == [] {
      FindEmpty(rs, name);
    } else {
      var n := |rs| - 1;
      assert rs == rs[..n] + [rs[n]];
      ListingSnoc(rs[..n], rs[n], 0);
      OffsetPrefix(rs, n, n);
      OpenFindsLast(rs[..n], name);
      FindFirst(Listing(rs[..n], 0), rs[n], Offset(rs, n), name);
      if LastNamed(rs[..n], name).Some? { OffsetPrefix(rs, n, LastNamed(rs[..n], name).value); }
    }
  }

  lemma FindEmpty(rs: seq<Record>, name: seq<Byte>)
    requires rs == []
    ensures Find(Reversed(Listing(rs, 0)), name) == None
  {
  }

  lemma FindFirst(list: seq<Entry>, r: Record, off: nat, name: seq<Byte>)
    ensures Find(Reversed(list + Listed(r, off)), name) ==
            if Named(r, name) then Some(Entry(name, off + BLOCK, |r.data|)) else Find(Reversed(list), name)
  {
    if IsFile(r.typeflag) {
      var e := Entry(Normalize(r.name), off + BLOCK, |r.data|);
      ReversedSnoc(list, e);
      assert ([e] + Reversed(list))[1..] == Reversed(list);
    } else {
      assert list + [] == list;
    }
  }

  /** The bytes behind the header of record k are its data. */
  lemma {:induction false} DataAt(pre: seq<Byte>, rs: seq<Record>, trailer: seq<Byte>, k: nat)
    requires AllWellFormed(rs) && k < |rs|
    ensures var start := |pre| + Offset(rs, k) + BLOCK;
            start + |rs[k].data| <= |pre + Archive(rs) + trailer| && (pre + Archive(rs) + trailer)[start..start + |rs[k].data|] == rs[k].data
    decreases k
  {
    hide WellFormed, Encoded, Advance;
    var e, rest := Encoded(rs[0]), Archive(rs[1..]);
    Regroup(pre, e, rest, trailer);
    if k == 0 {
      DataFirst(pre, rs[0], rest + trailer);
    } else {
      DataAt(pre + e, rs[1..], trailer, k - 1);
      OffsetTail(rs, k);
    }
  }

  lemma DataFirst(pre: seq<Byte>, r: Record, post: seq<Byte>)
    requires WellFormed(r)
    ensures |pre| + BLOCK + |r.data| <= |pre + Encoded(r) + post|
    ensures (pre + Encoded(r) + post)[|pre| + BLOCK..|pre| + BLOCK + |r.data|] == r.data
  {
    ScanRecord(pre, r, post);
  }

  /**
   * Mounting an archive, opening a path and reading from the file delivers the
   * requested slice of the data last written under that name, or finds no file.
   */
  method ReadNamed(ghost rs: seq<Record>, ghost trailer: seq<Byte>, image: seq<Byte>, path: seq<Byte>, buf: array<Byte>, off: Word, len: Word)
    returns (n: Option<nat>)
    requires AllWellFormed(rs) && IsEnd(trailer) && image == Archive(rs) + trailer && len <= buf.Length
    requires var k := LastNamed(rs, Relative(path)); k.Some? ==> SumFits(|rs[k.value].data|, off, len)
    modifies buf
    ensures n.Some? <==> LastNamed(rs, Relative(path)).Some?
    ensures n.None? ==> buf[..] == old(buf[..])
    ensures n.Some? ==>
              var data := rs[LastNamed(rs, Relative(path)).value].data;
              && n.value == CutToFile(|data|, off, len) <= buf.Length
              && (off < |data| ==> buf[..n.value] == data[off..off + n.value])
              && buf[n.value..] == old(buf[..])[n.value..]
  {
    hide WellFormed, Archive, Listing, Scan, Offset, Reversed, Find, IsEnd, LastNamed, ReadLength, SumFits, Relative, OctalValue;
    var entries := Mount(image);
    MountInvertsWriter(rs, trailer);
    var e := Open(entries, path);
    OpenFindsLast(rs, Relative(path));
    if e.None? { return None; }
    ghost var k := LastNamed(rs, Relative(path)).value;
    FileOf(rs, trailer, k);
    ghost var data, start := rs[k].data, e.value.data;
    CutWhenSumFits(e.value, off, len);
    if off < |data| { ReadIsSlice(image, start, data, off, ReadLength(e.value, off, len)); }
    var m := FileRead(image, e.value, buf, off, len);
    n := Some(m);
  }

  /** Record k in the image. */
  lemma FileOf(rs: seq<Record>, trailer: seq<Byte>, k: nat)
    requires AllWellFormed(rs) && k < |rs|
    ensures var start := Offset(rs, k) + BLOCK;
            && |rs[k].data| < TWO64 && start + |rs[k].data| <= |Archive(rs) + trailer|
            && (Archive(rs) + trailer)[start..start + |rs[k].data|] == rs[k].data
  {
    hide Archive, Offset;
    DataAt([], rs, trailer, k);
    assert [] + Archive(rs) + trailer == Archive(rs) + trailer;
    assert WellFormed(rs[k]);
    assert Power8(11) == 0x2_0000_0000;
  }

  lemma ReadIsSlice(s: seq<Byte>, start: nat, data: seq<Byte>, off: nat, n: nat)
    requires start + |data| <= |s| && s[start..start + |data|] == data && off + n <= |data|
    ensures s[start + off..start + off + n] == data[off..off + n]
  {
    var d, u, w := s[start..start + |data|], s[start + off..start + off + n], data[off..off + n];
    forall i | 0 <= i < n ensures u[i] == w[i] {
      assert d[off + i] == s[start + (off + i)];
    }
  }
}
