/** The container for several DTBs (src/dtb.c): packing it and reading it back. */
module MultiDtb {
  import opened Util
  import opened Fdt
  import opened Implement

  const MAGIC_MULTI: u32 := 0x5F4C4D41
  /** Up to the next multiple of DTB_PAGE_SIZE. */
  function Pages(n: nat): (r: nat)
    ensures n <= r < n + 2048
  {
    AlignUp(n, 2048)
  }

  const NAME_SIZE: nat := 16

  /** struct dtb_buffer_entry: a DTB and the three parts of its target name, each the text before the first NUL of a
      field of 16 bytes. */
  datatype Image = Image(bytes: Bytes, soc: string, platform: string, variant: string)

  /** struct dtb_multi_entry. */
  datatype Entry = Entry(soc: string, platform: string, variant: string, offset: nat, size: nat)

  // ---- Little-endian words ----

  function LE32(v: u32): (r: Bytes)
    ensures |r| == 4
  {
    [(v % 0x100) as char, (v / 0x100 % 0x100) as char, (v / 0x1_0000 % 0x100) as char, (v / 0x100_0000) as char]
  }

  function ReadLE32(s: Bytes, p: nat): nat
    requires p + 4 <= |s|
  {
    (s[p] as int) + (s[p + 1] as int) * 0x100 + (s[p + 2] as int) * 0x1_0000 + (s[p + 3] as int) * 0x100_0000
  }

  lemma ReadsLE32(s: Bytes, p: nat, v: u32)
    requires At(s, p, LE32(v))
    ensures p + 4 <= |s| && ReadLE32(s, p) == v
  {
    forall k | 0 <= k < 4
      ensures s[p + k] == LE32(v)[k]
    {
      AtByte(s, p, LE32(v), k);
    }
    Digits(v);
  }

  // ---- Names: four characters to a word, each word back to front, spaces for what is missing ----

  /** Where character k of a name stands. */
  function Swapped(k: nat): (r: nat)
    ensures r / 4 == k / 4
  {
    4 * (k / 4) + 3 - k % 4
  }

  lemma SwappedTwice(k: nat, length: nat)
    requires length % 4 == 0 && k < length
    ensures Swapped(Swapped(k)) == k && Swapped(k) < length
  {
  }

  /** A character of a field that holds s and then NULs. */
  function CharAt(s: string, k: nat): char {
    if k < |s| then s[k] else NUL
  }

  /** dtb_pedantic_multi_entry_char. */
  function PedanticChar(c: char): char {
    if c == NUL then ' ' else c
  }

  function NameText(s: string, length: nat): (r: Bytes)
    ensures |r| == length
  {
    seq(length, k requires 0 <= k < length => PedanticChar(CharAt(s, Swapped(k))))
  }

  /** A name in the container: filled up with spaces to the length of its field, and each word back to front. */
  lemma NameTextMeans(s: string, length: nat, word: nat, k: nat)
    requires NUL !in s && |s| <= length && 4 * word + 4 <= length && k < 4
    ensures var padded := s + seq(length - |s|, _ => ' ');
            NameText(s, length)[4 * word + k] == padded[4 * word + 3 - k]
  {
    var i := 4 * word + k;
    assert i / 4 == word && i % 4 == k;
    assert Swapped(i) == 4 * word + 3 - k;
  }

  /** A field read back: words turned around, spaces replaced by NULs, the rest NULs. */
  function FieldAt(d: Bytes, p: nat, length: nat): (r: Bytes)
    requires length % 4 == 0 && p + length <= |d|
    ensures |r| == NAME_SIZE
  {
    seq(NAME_SIZE, k requires 0 <= k < NAME_SIZE =>
      if k < length then SwappedTwice(k, length); Unspaced(d[p + Swapped(k)]) else NUL)
  }

  function Unspaced(c: char): char {
    if c == ' ' then NUL else c
  }

  /** What strncpy takes of a field: up to the first NUL. */
  function Text(field: Bytes): string {
    if field == [] || field[0] == NUL then [] else [field[0]] + Text(field[1..])
  }

  /** What is left of a name: its first `length` characters up to the first space. */
  function Kept(s: string, length: nat): string {
    if s == [] || length == 0 || s[0] == ' ' || s[0] == NUL then [] else [s[0]] + Kept(s[1..], length - 1)
  }

  lemma {:induction false} KeptIsWhole(s: string, length: nat)
    requires NUL !in s
    ensures Kept(s, length) == s <==> ' ' !in s && |s| <= length
    decreases |s|
  {
    if s != [] && length > 0 && s[0] != ' ' {
      KeptIsWhole(s[1..], length - 1);
      assert s == [s[0]] + s[1..];
      if Kept(s, length) == s {
        assert Kept(s, length)[1..] == s[1..];
      }
    }
  }

  lemma {:induction false} TextOfPadded(s: string, length: nat, field: Bytes)
    requires length <= |field| && NUL !in s
    requires forall k :: 0 <= k < |field| ==>
               field[k] == if k < length then Unspaced(PedanticChar(CharAt(s, k))) else NUL
    ensures Text(field) == Kept(s, length)
    decreases |field|
  {
    if field != [] && field[0] != NUL {
      assert s != [] && length > 0;
      forall k | 0 <= k < |field[1..]|
        ensures field[1..][k] == if k < length - 1 then Unspaced(PedanticChar(CharAt(s[1..], k))) else NUL
      {
        assert field[1..][k] == field[k + 1];
      }
      TextOfPadded(s[1..], length - 1, field[1..]);
    }
  }

  /** A name that was packed reads back as the part of it that fits and has no space. */
  lemma NameReadsBack(d: Bytes, p: nat, s: string, length: nat)
    requires length % 4 == 0 && length <= NAME_SIZE && NUL !in s && At(d, p, NameText(s, length))
    ensures p + length <= |d| && Text(FieldAt(d, p, length)) == Kept(s, length)
  {
    var field := FieldAt(d, p, length);
    forall k | 0 <= k < |field|
      ensures field[k] == if k < length then Unspaced(PedanticChar(CharAt(s, k))) else NUL
    {
      if k < length {
        SwappedTwice(k, length);
        AtByte(d, p, NameText(s, length), Swapped(k));
      }
    }
    TextOfPadded(s, length, field);
  }

  // ---- The layout of a container ----

  predicate VersionOk(version: nat) {
    version == 1 || version == 2
  }

  /** The length of a name field. */
  function NameLength(version: nat): nat {
    if version == 1 then 4 else 16
  }

  function EntryLength(version: nat): nat {
    NameLength(version) * 3 + 8
  }

  function EntriesLength(version: nat, n: nat): nat {
    if version == 1 then 20 * n else 56 * n
  }

  /** Where DTB i starts; for i the number of DTBs, the size of the whole. */
  function OffsetOf(images: seq<Image>, version: nat, i: nat): nat
    requires i <= |images|
  {
    if i == 0 then Pages(12 + EntriesLength(version, |images|))
    else OffsetOf(images, version, i - 1) + Pages(|images[i - 1].bytes|)
  }

  function EntryText(image: Image, version: nat, offset: u32, size: u32): (r: Bytes)
    ensures |r| == EntryLength(version)
  {
    var n := NameLength(version);
    NameText(image.soc, n) + NameText(image.platform, n) + NameText(image.variant, n) + LE32(offset) + LE32(size)
  }

  predicate Fits(images: seq<Image>, version: nat) {
    OffsetOf(images, version, |images|) < U32_LIMIT
  }

  lemma {:induction false} OffsetsGrow(images: seq<Image>, version: nat, i: nat, j: nat)
    requires i <= j <= |images|
    ensures OffsetOf(images, version, i) <= OffsetOf(images, version, j)
    ensures i < j ==> OffsetOf(images, version, i) + Pages(|images[i].bytes|) <= OffsetOf(images, version, j)
  {
    if i < j {
      OffsetsGrow(images, version, i, j - 1);
    }
  }

  function EntriesText(images: seq<Image>, version: nat, i: nat): (r: Bytes)
    requires i <= |images| && Fits(images, version)
    ensures |r| == EntriesLength(version, i)
  {
    if i == 0 then []
    else
      OffsetsGrow(images, version, i - 1, |images|);
      EntriesText(images, version, i - 1)
      + EntryText(images[i - 1], version, OffsetOf(images, version, i - 1), Pages(|images[i - 1].bytes|))
  }

  function HeaderText(images: seq<Image>, version: u32): Bytes
    requires |images| < U32_LIMIT && Fits(images, version)
  {
    LE32(MAGIC_MULTI) + LE32(version) + LE32(|images|) + EntriesText(images, version, |images|)
  }

  /** The DTB and zeros up to the next page. */
  function Page(bytes: Bytes): (r: Bytes)
    ensures |r| == Pages(|bytes|)
  {
    bytes + seq(Pages(|bytes|) - |bytes|, _ => NUL)
  }

  /** d is a container of these DTBs. */
  ghost predicate IsContainer(d: Bytes, images: seq<Image>, version: u32) {
    && VersionOk(version) && 0 < |images| < U32_LIMIT && Fits(images, version)
    && |d| == OffsetOf(images, version, |images|)
    && At(d, 0, HeaderText(images, version))
    && forall i :: 0 <= i < |images| ==> At(d, OffsetOf(images, version, i), Page(images[i].bytes))
  }

  lemma {:induction false} OffsetAligned(images: seq<Image>, version: nat, i: nat)
    requires i <= |images|
    ensures OffsetOf(images, version, i) % 2048 == 0
  {
    if i > 0 {
      OffsetAligned(images, version, i - 1);
    }
  }

  /** Offsets are page-aligned, and the DTBs keep clear of the header and of each other. */
  lemma PagesAreDisjoint(d: Bytes, images: seq<Image>, version: u32, i: nat, j: nat)
    requires IsContainer(d, images, version) && i < j < |images|
    ensures OffsetOf(images, version, i) % 2048 == 0 && OffsetOf(images, version, j) % 2048 == 0
    ensures |HeaderText(images, version)| <= OffsetOf(images, version, i)
    ensures OffsetOf(images, version, i) + |Page(images[i].bytes)| <= OffsetOf(images, version, j)
    ensures OffsetOf(images, version, j) + |Page(images[j].bytes)| <= |d|
  {
    hide At, Page;
    OffsetAligned(images, version, i);
    OffsetAligned(images, version, j);
    OffsetsGrow(images, version, 0, i);
    OffsetsGrow(images, version, i, j);
    OffsetsGrow(images, version, j, |images|);
  }

  // ---- Packing ----

  /** One name, through the moving pointer. */
  method PutName(buffer: array<char>, at: nat, name: string, length: nat) returns (next: nat)
    requires length % 4 == 0 && at + length <= buffer.Length
    modifies buffer
    ensures next == at + length && buffer[..next] == old(buffer[..at]) + NameText(name, length)
    ensures forall k :: next <= k < buffer.Length ==> buffer[k] == old(buffer[k])
  {
    hide CharAt, PedanticChar;
    hide NameText;
    var k: nat := 0;
    next := at;
    ghost var before, text := buffer[..at], NameText(name, length);
    assert before + text[..0] == before;
    while k < length
      invariant k <= length && k % 4 == 0 && next == at + k && buffer[..next] == before + text[..k]
      invariant forall i :: next <= i < buffer.Length ==> buffer[i] == old(buffer[i])
    {
      WordOfName(name, length, k);
      next := PutFour(buffer, next, PedanticChar(CharAt(name, k + 3)), PedanticChar(CharAt(name, k + 2)),
                      PedanticChar(CharAt(name, k + 1)), PedanticChar(CharAt(name, k)));
      k := k + 4;
    }
    assert text[..k] == text;
  }

  method PutFour(buffer: array<char>, at: nat, a: char, b: char, c: char, d: char) returns (next: nat)
    requires at + 4 <= buffer.Length
    modifies buffer
    ensures next == at + 4 && buffer[..next] == old(buffer[..at]) + [a, b, c, d]
    ensures forall k :: next <= k < buffer.Length ==> buffer[k] == old(buffer[k])
  {
    buffer[at], buffer[at + 1], buffer[at + 2], buffer[at + 3] := a, b, c, d;
    next := at + 4;
  }

  lemma WordOfName(name: string, length: nat, k: nat)
    requires k + 4 <= length && k % 4 == 0
    ensures var text := NameText(name, length);
            text[..k + 4] == text[..k] + [PedanticChar(CharAt(name, k + 3)), PedanticChar(CharAt(name, k + 2)),
                                          PedanticChar(CharAt(name, k + 1)), PedanticChar(CharAt(name, k))]
  {
    hide CharAt, PedanticChar;
    FourSwapped(k);
    hide Swapped;
  }

  lemma FourSwapped(k: nat)
    requires k % 4 == 0
    ensures Swapped(k) == k + 3 && Swapped(k + 1) == k + 2 && Swapped(k + 2) == k + 1 && Swapped(k + 3) == k
  {
  }

  /** Lines 1074-1090 for one DTB. */
  method PutEntry(buffer: array<char>, at: nat, image: Image, version: nat, offset: u32, size: u32) returns (next: nat)
    requires VersionOk(version) && at + EntryLength(version) <= buffer.Length
    modifies buffer
    ensures next == at + EntryLength(version)
    ensures buffer[..next] == old(buffer[..at]) + EntryText(image, version, offset, size)
    ensures forall k :: next <= k < buffer.Length ==> buffer[k] == old(buffer[k])
  {
    hide NameText, LE32;
    ghost var head := buffer[..at];
    var n := NameLength(version);
    next := PutName(buffer, at, image.soc, n);
    next := PutName(buffer, next, image.platform, n);
    next := PutName(buffer, next, image.variant, n);
    next := PutBytes(buffer, next, LE32(offset));
    next := PutBytes(buffer, next, LE32(size));
    RegroupHead(head, NameText(image.soc, n), NameText(image.platform, n), NameText(image.variant, n), LE32(offset),
                LE32(size));
  }

  lemma RegroupHead(h: Bytes, a: Bytes, b: Bytes, c: Bytes, d: Bytes, e: Bytes)
    ensures h + a + b + c + d + e == h + (a + b + c + d + e)
  {
  }

  /** Lines 1065-1091. */
  method PutHeader(buffer: array<char>, images: seq<Image>, version: u32, offsets: seq<nat>, sizes: seq<nat>)
    returns (next: nat)
    requires VersionOk(version) && |images| < U32_LIMIT && Fits(images, version) && |offsets| == |sizes| == |images|
    requires forall i :: 0 <= i < |images| ==>
               offsets[i] == OffsetOf(images, version, i) && sizes[i] == Pages(|images[i].bytes|)
    requires 12 + EntriesLength(version, |images|) <= buffer.Length
    modifies buffer
    ensures next == |HeaderText(images, version)| && buffer[..next] == HeaderText(images, version)
    ensures forall k :: next <= k < buffer.Length ==> buffer[k] == old(buffer[k])
  {
    hide LE32, EntryText, Pages, EntriesText, OffsetOf;
    next := PutBytes(buffer, 0, LE32(MAGIC_MULTI));
    assert buffer[..next] == LE32(MAGIC_MULTI);
    next := PutBytes(buffer, next, LE32(version));
    next := PutBytes(buffer, next, LE32(|images|));
    ghost var head := LE32(MAGIC_MULTI) + LE32(version) + LE32(|images|);
    NoEntries(images, version, head);
    for i := 0 to |images|
      invariant next == 12 + EntriesLength(version, i) && buffer[..next] == head + EntriesText(images, version, i)
      invariant forall k :: next <= k < buffer.Length ==> buffer[k] == old(buffer[k])
    {
      OneEntry(images, version, i, head);
      next := PutEntry(buffer, next, images[i], version, offsets[i], sizes[i]);
    }
  }

  lemma NoEntries(images: seq<Image>, version: nat, head: Bytes)
    requires Fits(images, version)
    ensures head + EntriesText(images, version, 0) == head && EntriesLength(version, 0) == 0
  {
  }

  lemma OneEntry(images: seq<Image>, version: nat, i: nat, head: Bytes)
    requires i < |images| && Fits(images, version) && VersionOk(version)
    ensures OffsetOf(images, version, i) + Pages(|images[i].bytes|) < U32_LIMIT
    ensures EntriesLength(version, i) + EntryLength(version)
              == EntriesLength(version, i + 1) <= EntriesLength(version, |images|)
    ensures head + EntriesText(images, version, i + 1)
            == head + EntriesText(images, version, i)
              + EntryText(images[i], version, OffsetOf(images, version, i), Pages(|images[i].bytes|))
  {
    hide EntryText, Pages;
    OffsetsGrow(images, version, i, |images|);
    var text := EntryText(images[i], version, OffsetOf(images, version, i), Pages(|images[i].bytes|));
    assert head + (EntriesText(images, version, i) + text) == head + EntriesText(images, version, i) + text;
  }

  lemma EntriesProduct(version: nat, n: nat)
    requires VersionOk(version)
    ensures EntryLength(version) * n == EntriesLength(version, n)
  {
  }

  method HeaderSize(version: nat, n: nat) returns (size: nat)
    requires VersionOk(version)
    ensures size == 12 + EntriesLength(version, n)
  {
    EntriesProduct(version, n);
    size := 12 + EntryLength(version) * n;
  }

  lemma FirstOffset(images: seq<Image>, version: nat)
    ensures OffsetOf(images, version, 0) == Pages(12 + EntriesLength(version, |images|))
  {
  }

  lemma NextOffset(images: seq<Image>, version: nat, i: nat)
    requires i < |images|
    ensures OffsetOf(images, version, i + 1) == OffsetOf(images, version, i) + Pages(|images[i].bytes|)
  {
  }

  /** Lines 1043-1058: where each DTB will be. */
  method PlanPages(images: seq<Image>, version: nat) returns (size: nat, offsets: seq<nat>, sizes: seq<nat>)
    requires VersionOk(version)
    ensures size == OffsetOf(images, version, |images|) && |offsets| == |sizes| == |images|
    ensures forall i :: 0 <= i < |images| ==>
              offsets[i] == OffsetOf(images, version, i) && sizes[i] == Pages(|images[i].bytes|)
  {
    hide Pages, OffsetOf, EntriesLength;
    var header := HeaderSize(version, |images|);
    size := Pages(header);
    FirstOffset(images, version);
    offsets, sizes := [], [];
    for i := 0 to |images|
      invariant size == OffsetOf(images, version, i) && |offsets| == |sizes| == i
      invariant forall k :: 0 <= k < i ==>
                  offsets[k] == OffsetOf(images, version, k) && sizes[k] == Pages(|images[k].bytes|)
    {
      offsets, sizes := offsets + [size], sizes + [Pages(|images[i].bytes|)];
      size := size + Pages(|images[i].bytes|);
      NextOffset(images, version, i);
    }
  }

  /** Lines 1092-1095: copy DTB i to its place. */
  method PutImage(buffer: array<char>, at: nat, bytes: Bytes)
    requires at + Pages(|bytes|) <= buffer.Length
    requires forall k :: at <= k < buffer.Length ==> buffer[k] == NUL
    modifies buffer
    ensures At(buffer[..], at, Page(bytes)) && buffer[..at] == old(buffer[..at])
    ensures forall k :: at + Pages(|bytes|) <= k < buffer.Length ==> buffer[k] == NUL
  {
    hide Pages;
    var next := PutBytes(buffer, at, bytes);
    var end := at + Pages(|bytes|);
    assert buffer[..at] == buffer[..next][..at];
    assert buffer[at..next] == buffer[..next][at..] == bytes;
    assert buffer[next..end] == seq(end - next, _ => NUL);
    assert buffer[..][at..end] == buffer[at..next] + buffer[next..end];
  }

  lemma StaysAt(a: Bytes, b: Bytes, end: nat, p: nat, x: Bytes)
    requires end <= |a| && end <= |b| && a[..end] == b[..end] && p + |x| <= end && At(a, p, x)
    ensures At(b, p, x)
  {
    assert a[p..p + |x|] == a[..end][p..p + |x|] && b[p..p + |x|] == b[..end][p..p + |x|];
  }

  /** Lines 1092-1095. */
  method PutImages(buffer: array<char>, images: seq<Image>, version: u32, offsets: seq<nat>)
    requires VersionOk(version) && 0 < |images| < U32_LIMIT && Fits(images, version) && |offsets| == |images|
    requires forall i :: 0 <= i < |images| ==> offsets[i] == OffsetOf(images, version, i)
    requires buffer.Length == OffsetOf(images, version, |images|) && At(buffer[..], 0, HeaderText(images, version))
    requires forall k :: OffsetOf(images, version, 0) <= k < buffer.Length ==> buffer[k] == NUL
    modifies buffer
    ensures IsContainer(buffer[..], images, version)
  {
    hide Pages, At, Page, HeaderText, OffsetOf, Fits, Placed;
    HeaderFits(images, version);
    NonePlaced(buffer[..], images, version);
    for i := 0 to |images|
      invariant Placed(buffer[..], images, version, i)
      invariant forall k :: OffsetOf(images, version, i) <= k < buffer.Length ==> buffer[k] == NUL
    {
      ghost var was := buffer[..];
      var end := offsets[i];
      OffsetsGrow(images, version, i + 1, |images|);
      NextOffset(images, version, i);
      PutImage(buffer, end, images[i].bytes);
      assert was[..end] == buffer[..][..end];
      NextPlaced(was, buffer[..], images, version, i);
    }
    AllPlaced(buffer[..], images, version);
  }

  /** The header and the first i DTBs are in their places. */
  ghost predicate Placed(d: Bytes, images: seq<Image>, version: u32, i: nat)
    requires |images| < U32_LIMIT && Fits(images, version)
  {
    && i <= |images| && OffsetOf(images, version, i) <= |d| == OffsetOf(images, version, |images|)
    && At(d, 0, HeaderText(images, version))
    && forall k :: 0 <= k < i ==> At(d, OffsetOf(images, version, k), Page(images[k].bytes))
  }

  lemma NonePlaced(d: Bytes, images: seq<Image>, version: u32)
    requires |images| < U32_LIMIT && Fits(images, version) && |d| == OffsetOf(images, version, |images|)
    requires At(d, 0, HeaderText(images, version))
    ensures Placed(d, images, version, 0)
  {
    hide At, HeaderText;
    OffsetsGrow(images, version, 0, |images|);
  }

  lemma NextPlaced(a: Bytes, b: Bytes, images: seq<Image>, version: u32, i: nat)
    requires |images| < U32_LIMIT && Fits(images, version) && i < |images| && Placed(a, images, version, i)
    requires |a| == |b|
    requires a[..OffsetOf(images, version, i)] == b[..OffsetOf(images, version, i)]
    requires At(b, OffsetOf(images, version, i), Page(images[i].bytes))
    ensures Placed(b, images, version, i + 1)
  {
    hide At, HeaderText, Pages, Page, OffsetOf;
    HeaderFits(images, version);
    OffsetsGrow(images, version, 0, i);
    OffsetsGrow(images, version, i + 1, |images|);
    StaysAt(a, b, OffsetOf(images, version, i), 0, HeaderText(images, version));
    forall k | 0 <= k < i
      ensures At(b, OffsetOf(images, version, k), Page(images[k].bytes))
    {
      OffsetsGrow(images, version, k, i);
      StaysAt(a, b, OffsetOf(images, version, i), OffsetOf(images, version, k), Page(images[k].bytes));
    }
  }

  lemma AllPlaced(d: Bytes, images: seq<Image>, version: u32)
    requires |images| < U32_LIMIT && Fits(images, version) && Placed(d, images, version, |images|) && VersionOk(version)
    requires images != []
    ensures IsContainer(d, images, version)
  {
    hide At, HeaderText;
  }

  lemma HeaderFits(images: seq<Image>, version: u32)
    requires |images| < U32_LIMIT && Fits(images, version)
    ensures |HeaderText(images, version)| <= OffsetOf(images, version, 0) <= OffsetOf(images, version, |images|)
  {
    OffsetsGrow(images, version, 0, |images|);
  }

  /** dtb_combine_multi_dtb, for a container that stays below 4 GiB. */
  method Combine(images: seq<Image>, version: u32) returns (r: int, buffer: array<char>)
    requires |images| < U32_LIMIT && (VersionOk(version) ==> Fits(images, version))
    ensures r == -1 <==> images == [] || version == 0
    ensures r == 1 <==> images != [] && version != 0 && !VersionOk(version)
    ensures r == -1 || r == 0 || r == 1
    ensures r == 0 ==> IsContainer(buffer[..], images, version)
  {
    hide IsContainer, HeaderText, Pages;
    if images == [] || version == 0 {
      buffer := new char[0];
      return -1, buffer;
    }
    if !VersionOk(version) {
      buffer := new char[0];
      return 1, buffer;
    }
    var size, offsets, sizes := PlanPages(images, version);
    HeaderFits(images, version);
    HeaderLength(images, version);
    buffer := Zeroed(size);
    var next := PutHeader(buffer, images, version, offsets, sizes);
    assert At(buffer[..], 0, HeaderText(images, version));
    PutImages(buffer, images, version, offsets);
    return 0, buffer;
  }

  lemma HeaderLength(images: seq<Image>, version: u32)
    requires |images| < U32_LIMIT && Fits(images, version)
    ensures |HeaderText(images, version)| == 12 + EntriesLength(version, |images|)
  {
  }

  // ---- Reading ----

  /** Lines 115-126: turn each word of a name around. */
  method ReadWords(d: Bytes, p: nat, length: nat) returns (target: Bytes)
    requires length % 4 == 0 && length <= NAME_SIZE && p + length <= |d|
    ensures |target| == NAME_SIZE
    ensures forall i :: 0 <= i < NAME_SIZE ==>
              if i < length then Swapped(i) < length && target[i] == d[p + Swapped(i)] else target[i] == NUL
  {
    hide Swapped;
    target := seq(NAME_SIZE, _ => NUL);
    var k: nat := 0;
    while k < length
      invariant k <= length && k % 4 == 0 && |target| == NAME_SIZE
      invariant forall i :: 0 <= i < k ==> Swapped(i) < length && target[i] == d[p + Swapped(i)]
      invariant forall i :: k <= i < NAME_SIZE ==> target[i] == NUL
    {
      FourSwapped(k);
      ghost var was := target;
      if d[p + k] != NUL || d[p + k + 1] != NUL || d[p + k + 2] != NUL || d[p + k + 3] != NUL {
        target := target[..k] + [d[p + k + 3], d[p + k + 2], d[p + k + 1], d[p + k]] + target[k + 4..];
      }
      WordTurned(was, target, k, d[p + k + 3], d[p + k + 2], d[p + k + 1], d[p + k]);
      k := k + 4;
    }
  }

  lemma WordTurned(was: Bytes, now: Bytes, k: nat, a: char, b: char, c: char, e: char)
    requires k + 4 <= |was|
    requires now == was[..k] + [a, b, c, e] + was[k + 4..]
             || (now == was && a == b == c == e == NUL && forall i :: k <= i < k + 4 ==> was[i] == NUL)
    ensures |now| == |was| && now[k] == a && now[k + 1] == b && now[k + 2] == c && now[k + 3] == e
    ensures forall i :: 0 <= i < |was| && !(k <= i < k + 4) ==> now[i] == was[i]
  {
  }

  /** One name field of lines 113-131: then make NULs of spaces. */
  method ReadField(d: Bytes, p: nat, length: nat) returns (target: Bytes)
    requires length % 4 == 0 && length <= NAME_SIZE && p + length <= |d|
    ensures target == FieldAt(d, p, length)
  {
    hide Swapped;
    target := ReadWords(d, p, length);
    ghost var raw := target;
    for i := 0 to NAME_SIZE
      invariant |target| == NAME_SIZE
      invariant forall j :: 0 <= j < NAME_SIZE ==> target[j] == if j < i then Unspaced(raw[j]) else raw[j]
    {
      if target[i] == ' ' {
        target := target[i := NUL];
      }
    }
  }

  /** strncpy into a field of the same size, read as a string. */
  method CopyText(field: Bytes) returns (s: string)
    ensures s == Text(field)
  {
    s := [];
    assert field[0..] == field;
    for i := 0 to |field|
      invariant Text(field) == s + Text(field[i..])
    {
      assert field[i..][0] == field[i] && field[i..][1..] == field[i + 1..];
      if field[i] == NUL {
        assert s + [] == s;
        return;
      }
      s := s + [field[i]];
    }
    assert field[|field|..] == [] && s + [] == s;
  }

  function EntryAt(version: nat, i: nat): nat {
    12 + EntriesLength(version, i)
  }

  function EntryOf(d: Bytes, p: nat, version: nat): Entry
    requires VersionOk(version) && p + EntryLength(version) <= |d|
  {
    var n := NameLength(version);
    Entry(Text(FieldAt(d, p, n)), Text(FieldAt(d, p + n, n)), Text(FieldAt(d, p + 2 * n, n)), ReadLE32(d, p + 3 * n),
          ReadLE32(d, p + 3 * n + 4))
  }

  /** dtb_parse_multi_entries_each. */
  method ReadEntry(d: Bytes, version: nat, i: nat) returns (e: Entry)
    requires VersionOk(version) && EntryAt(version, i) + EntryLength(version) <= |d|
    ensures e == EntryOf(d, EntryAt(version, i), version)
  {
    hide FieldAt, Text, ReadLE32, EntriesLength;
    EntriesProduct(version, i);
    var n := NameLength(version);
    var entryOffset := 12 + (n * 3 + 8) * i;
    var propOffset := entryOffset + n * 3;
    var soc := ReadField(d, entryOffset, n);
    var platform := ReadField(d, entryOffset + n, n);
    var variant := ReadField(d, entryOffset + 2 * n, n);
    soc := CopyText(soc);
    platform := CopyText(platform);
    variant := CopyText(variant);
    e := Entry(soc, platform, variant, ReadLE32(d, propOffset), ReadLE32(d, propOffset + 4));
  }

  /** dtb_parse_multi_entries, for memory that holds all entries the header counts. */
  method ReadEntries(d: Bytes) returns (r: int, entries: seq<Entry>)
    requires 12 <= |d|
    requires VersionOk(ReadLE32(d, 4)) ==> EntryAt(ReadLE32(d, 4), ReadLE32(d, 8)) <= |d|
    ensures r == 2 <==> ReadLE32(d, 0) != MAGIC_MULTI
    ensures r == 3 <==> ReadLE32(d, 0) == MAGIC_MULTI && !VersionOk(ReadLE32(d, 4))
    ensures r == 0 || r == 2 || r == 3
    ensures r == 0 ==> |entries| == ReadLE32(d, 8)
    ensures r == 0 ==> forall i :: 0 <= i < |entries| ==>
              EntryAt(ReadLE32(d, 4), i) + EntryLength(ReadLE32(d, 4)) <= |d|
              && entries[i] == EntryOf(d, EntryAt(ReadLE32(d, 4), i), ReadLE32(d, 4))
  {
    hide EntryOf;
    entries := [];
    if ReadLE32(d, 0) != MAGIC_MULTI {
      return 2, entries;
    }
    var version := ReadLE32(d, 4);
    if !VersionOk(version) {
      return 3, entries;
    }
    var count := ReadLE32(d, 8);
    hide ReadLE32;
    for i := 0 to count
      invariant |entries| == i
      invariant forall k :: 0 <= k < i ==>
                  EntryAt(version, k) + EntryLength(version) <= |d|
                  && entries[k] == EntryOf(d, EntryAt(version, k), version)
    {
      EntriesMono(version, i, count);
      var e := ReadEntry(d, version, i);
      entries := entries + [e];
    }
    return 0, entries;
  }

  lemma EntriesMono(version: nat, i: nat, n: nat)
    requires VersionOk(version) && i < n
    ensures EntryAt(version, i) + EntryLength(version) <= EntryAt(version, n)
  {
  }

  // ---- Packing, then reading ----

  predicate NamesOk(image: Image) {
    NUL !in image.soc && NUL !in image.platform && NUL !in image.variant
  }

  lemma EntryReadsBack(d: Bytes, p: nat, image: Image, version: nat, offset: u32, size: u32)
    requires VersionOk(version) && NamesOk(image) && At(d, p, EntryText(image, version, offset, size))
    ensures p + EntryLength(version) <= |d|
    ensures var n := NameLength(version);
            EntryOf(d, p, version)
              == Entry(Kept(image.soc, n), Kept(image.platform, n), Kept(image.variant, n), offset, size)
  {
    hide At, NameText, FieldAt, Text, Kept, LE32, ReadLE32;
    var n := NameLength(version);
    var a, b, c := NameText(image.soc, n), NameText(image.platform, n), NameText(image.variant, n);
    AtBound(d, p, EntryText(image, version, offset, size));
    AtConcat(d, p, a + b + c + LE32(offset), LE32(size));
    AtConcat(d, p, a + b + c, LE32(offset));
    AtConcat(d, p, a + b, c);
    AtConcat(d, p, a, b);
    NameReadsBack(d, p, image.soc, n);
    NameReadsBack(d, p + n, image.platform, n);
    NameReadsBack(d, p + 2 * n, image.variant, n);
    ReadsLE32(d, p + 3 * n, offset);
    ReadsLE32(d, p + 3 * n + 4, size);
  }

  lemma {:induction false} EntryIsThere(d: Bytes, p: nat, images: seq<Image>, version: nat, i: nat, n: nat)
    requires i < n <= |images| && Fits(images, version) && VersionOk(version)
    requires At(d, p, EntriesText(images, version, n))
    ensures OffsetOf(images, version, i) + Pages(|images[i].bytes|) < U32_LIMIT
    ensures At(d, p + EntriesLength(version, i),
               EntryText(images[i], version, OffsetOf(images, version, i), Pages(|images[i].bytes|)))
    decreases n
  {
    hide At, EntryText, Pages;
    OffsetsGrow(images, version, n - 1, |images|);
    OffsetsGrow(images, version, i, |images|);
    AtConcat(d, p, EntriesText(images, version, n - 1),
             EntryText(images[n - 1], version, OffsetOf(images, version, n - 1), Pages(|images[n - 1].bytes|)));
    if i < n - 1 {
      EntryIsThere(d, p, images, version, i, n - 1);
    }
  }

  lemma HeaderReadsBack(d: Bytes, images: seq<Image>, version: u32)
    requires |images| < U32_LIMIT && Fits(images, version) && At(d, 0, HeaderText(images, version))
    ensures 12 + EntriesLength(version, |images|) <= |d|
    ensures ReadLE32(d, 0) == MAGIC_MULTI && ReadLE32(d, 4) == version && ReadLE32(d, 8) == |images|
    ensures At(d, 12, EntriesText(images, version, |images|))
  {
    hide At, LE32, ReadLE32, EntriesText;
    var text := EntriesText(images, version, |images|);
    AtConcat(d, 0, LE32(MAGIC_MULTI) + LE32(version) + LE32(|images|), text);
    AtConcat(d, 0, LE32(MAGIC_MULTI) + LE32(version), LE32(|images|));
    AtConcat(d, 0, LE32(MAGIC_MULTI), LE32(version));
    ReadsLE32(d, 0, MAGIC_MULTI);
    ReadsLE32(d, 4, version);
    ReadsLE32(d, 8, |images|);
    AtBound(d, 12, text);
  }

  /** The bytes of a container where they stand: 20 or 56 bytes for each DTB, with its names, offset and size in this
      order. */
  lemma ContainerBytes(d: Bytes, images: seq<Image>, version: u32, i: nat, field: nat, word: nat, k: nat)
    requires IsContainer(d, images, version) && i < |images| && NamesOk(images[i])
    requires var n := if version == 1 then 4 else 16; field < 3 && 4 * word + 4 <= n && k < 4
    ensures |d| >= 12 && d[..4] == "AML_" && ReadLE32(d, 4) == version && ReadLE32(d, 8) == |images|
    ensures var n, p := if version == 1 then 4 else 16, if version == 1 then 12 + 20 * i else 12 + 56 * i;
            var name := [images[i].soc, images[i].platform, images[i].variant][field];
            && p + 3 * n + 8 <= |d|
            && (|name| <= n ==>
                  d[p + field * n + 4 * word + k] == (name + seq(n - |name|, _ => ' '))[4 * word + 3 - k])
            && ReadLE32(d, p + 3 * n) == OffsetOf(images, version, i)
            && ReadLE32(d, p + 3 * n + 4) == Pages(|images[i].bytes|)
  {
    hide At, EntryText, HeaderText, EntriesText, Pages, OffsetOf, Fits, ReadLE32, LE32, NameText;
    HeaderReadsBack(d, images, version);
    ContainerMagic(d, images, version);
    EntryIsThere(d, 12, images, version, i, |images|);
    EntryBytes(d, EntryAt(version, i), images[i], version, OffsetOf(images, version, i), Pages(|images[i].bytes|),
               field,
               word, k);
  }

  lemma ContainerMagic(d: Bytes, images: seq<Image>, version: u32)
    requires |images| < U32_LIMIT && Fits(images, version) && At(d, 0, HeaderText(images, version))
    ensures |d| >= 4 && d[..4] == "AML_"
  {
    hide Fits, EntriesText;
    var tail := LE32(version) + LE32(|images|) + EntriesText(images, version, |images|);
    assert HeaderText(images, version) == LE32(MAGIC_MULTI) + tail;
    AtConcat(d, 0, LE32(MAGIC_MULTI), tail);
    assert LE32(MAGIC_MULTI) == "AML_";
  }

  lemma EntryBytes(d: Bytes, p: nat, image: Image, version: nat, offset: u32, size: u32, field: nat, word: nat, k: nat)
    requires VersionOk(version) && NamesOk(image) && At(d, p, EntryText(image, version, offset, size))
    requires field < 3 && 4 * word + 4 <= NameLength(version) && k < 4
    ensures var n, name := NameLength(version), [image.soc, image.platform, image.variant][field];
            && p + 3 * n + 8 <= |d|
            && (|name| <= n ==>
                  d[p + field * n + 4 * word + k] == (name + seq(n - |name|, _ => ' '))[4 * word + 3 - k])
            && ReadLE32(d, p + 3 * n) == offset && ReadLE32(d, p + 3 * n + 4) == size
  {
    hide At, NameText, LE32, ReadLE32;
    var n, name := NameLength(version), [image.soc, image.platform, image.variant][field];
    var a, b, c := NameText(image.soc, n), NameText(image.platform, n), NameText(image.variant, n);
    AtBound(d, p, EntryText(image, version, offset, size));
    AtConcat(d, p, a + b + c + LE32(offset), LE32(size));
    AtConcat(d, p, a + b + c, LE32(offset));
    AtConcat(d, p, a + b, c);
    AtConcat(d, p, a, b);
    ReadsLE32(d, p + 3 * n, offset);
    ReadsLE32(d, p + 3 * n + 4, size);
    assert At(d, p + field * n, NameText(name, n));
    AtByte(d, p + field * n, NameText(name, n), 4 * word + k);
    if |name| <= n {
      NameTextMeans(name, n, word, k);
    }
  }

  /** What a packed DTB reads back as: the part of each name that fits and has no space, and its bytes up to the page
      end. */
  lemma PackedReadsBack(d: Bytes, images: seq<Image>, version: u32, i: nat)
    requires IsContainer(d, images, version) && i < |images| && NamesOk(images[i])
    ensures EntryAt(version, i) + EntryLength(version) <= |d|
    ensures var e, n := EntryOf(d, EntryAt(version, i), version), NameLength(version);
            && (e.soc, e.platform, e.variant)
                 == (Kept(images[i].soc, n), Kept(images[i].platform, n), Kept(images[i].variant, n))
            && e.offset % 2048 == 0 && |images[i].bytes| <= e.size && At(d, e.offset, Page(images[i].bytes))
            && e.size == |Page(images[i].bytes)|
  {
    hide At, EntryText, EntryOf, HeaderText, Kept, EntriesText, Pages, OffsetOf, Fits, EntryLength, EntriesLength;
    OffsetAligned(images, version, i);
    HeaderReadsBack(d, images, version);
    EntryIsThere(d, 12, images, version, i, |images|);
    hide Page;
    EntryReadsBack(d, EntryAt(version, i), images[i], version, OffsetOf(images, version, i), Pages(|images[i].bytes|));
  }

  /** The names read back whole if and only if they fit the field and have no space; the DTB's bytes always do. */
  lemma PackedNamesReadBack(d: Bytes, images: seq<Image>, version: u32, i: nat)
    requires IsContainer(d, images, version) && i < |images| && NamesOk(images[i])
    ensures EntryAt(version, i) + EntryLength(version) <= |d|
    ensures var e, n := EntryOf(d, EntryAt(version, i), version), NameLength(version);
            && (e.soc == images[i].soc <==> ' ' !in images[i].soc && |images[i].soc| <= n)
            && (e.platform == images[i].platform <==> ' ' !in images[i].platform && |images[i].platform| <= n)
            && (e.variant == images[i].variant <==> ' ' !in images[i].variant && |images[i].variant| <= n)
            && e.offset + |images[i].bytes| <= |d| && d[e.offset..e.offset + |images[i].bytes|] == images[i].bytes
  {
    hide EntryOf, HeaderText, Kept, EntriesLength, EntryLength, Pages, At, Page, OffsetOf, Fits;
    PackedReadsBack(d, images, version, i);
    KeptIsWhole(images[i].soc, NameLength(version));
    KeptIsWhole(images[i].platform, NameLength(version));
    KeptIsWhole(images[i].variant, NameLength(version));
    PageHolds(d, EntryOf(d, EntryAt(version, i), version).offset, images[i].bytes);
  }

  lemma PageHolds(d: Bytes, p: nat, bytes: Bytes)
    requires At(d, p, Page(bytes))
    ensures p + |bytes| <= |d| && d[p..p + |bytes|] == bytes
  {
    hide Pages;
    AtConcat(d, p, bytes, seq(Pages(|bytes|) - |bytes|, _ => NUL));
  }

  /** Packing and reading: every DTB comes back in its place, for both versions. */
  method PackAndRead(images: seq<Image>, version: u32) returns (d: Bytes, entries: seq<Entry>)
    requires VersionOk(version) && 0 < |images| < U32_LIMIT && Fits(images, version)
    requires forall i :: 0 <= i < |images| ==> NamesOk(images[i])
    ensures |entries| == |images|
    ensures forall i :: 0 <= i < |images| ==>
              var e, n := entries[i], NameLength(version);
              && (e.soc == images[i].soc <==> ' ' !in images[i].soc && |images[i].soc| <= n)
              && (e.platform == images[i].platform <==> ' ' !in images[i].platform && |images[i].platform| <= n)
              && (e.variant == images[i].variant <==> ' ' !in images[i].variant && |images[i].variant| <= n)
              && e.offset + |images[i].bytes| <= |d| && d[e.offset..e.offset + |images[i].bytes|] == images[i].bytes
  {
    hide IsContainer, EntryOf, ReadLE32, NamesOk, Fits, EntryLength;
    var r, buffer := Combine(images, version);
    d := buffer[..];
    ContainerHeader(d, images, version);
    var q;
    q, entries := ReadEntries(d);
    forall i | 0 <= i < |images|
      ensures var e, n := entries[i], NameLength(version);
              && (e.soc == images[i].soc <==> ' ' !in images[i].soc && |images[i].soc| <= n)
              && (e.platform == images[i].platform <==> ' ' !in images[i].platform && |images[i].platform| <= n)
              && (e.variant == images[i].variant <==> ' ' !in images[i].variant && |images[i].variant| <= n)
              && e.offset + |images[i].bytes| <= |d| && d[e.offset..e.offset + |images[i].bytes|] == images[i].bytes
    {
      PackedNamesReadBack(d, images, version, i);
    }
  }

  lemma ContainerHeader(d: Bytes, images: seq<Image>, version: u32)
    requires IsContainer(d, images, version)
    ensures EntryAt(version, |images|) <= |d|
    ensures ReadLE32(d, 0) == MAGIC_MULTI && ReadLE32(d, 4) == version && ReadLE32(d, 8) == |images|
  {
    hide ReadLE32, At, HeaderText;
    HeaderReadsBack(d, images, version);
  }
}