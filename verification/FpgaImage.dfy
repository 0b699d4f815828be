/**
 Loading an FPGA image in driverso/fpga/fpga-mgr.c: from one buffer and from a list of fragments.
 The low-level driver's operations and the memory allocator are parameters.
 */
module FpgaImage {
  import opened Common

  datatype State =
    | Idle
    | ParseHeader | ParseHeaderErr
    | WriteInit | WriteInitErr
    | Write | WriteErr
    | WriteComplete | WriteCompleteErr
    | Operating

  /** The answer of a driver's parse_header: a return code and the sizes it sets. */
  datatype Parsed = Parsed(ret: int, headerSize: nat, dataSize: nat)

  /** How many bytes of the image a driver has seen, and the sizes that it asked for. */
  datatype Header = Header(seen: nat, headerSize: nat, dataSize: nat)

  datatype Driver = Driver(
    initialHeaderSize: nat,
    skipHeader: bool,
    parseHeader: Option<seq<Byte> -> Parsed>,
    writeInit: int,
    write: nat -> int,
    writeSg: Option<int>,
    writeComplete: int)

  /** The fragments put together. */
  function Join(fs: seq<seq<Byte>>): seq<Byte> {
    if fs == [] then [] else fs[0] + Join(fs[1..])
  }

  lemma {:induction false} JoinAppend(fs: seq<seq<Byte>>, f: seq<Byte>)
    ensures Join(fs + [f]) == Join(fs) + f
  {
    if fs == [] {
      assert [f][1..] == [];
    } else {
      JoinAppend(fs[1..], f);
      assert (fs + [f])[1..] == fs[1..] + [f];
    }
  }

  /** sg_miter_skip: the fragments without the first `n` bytes, if there are that many. */
  function Skipped(fs: seq<seq<Byte>>, n: nat): (r: Option<seq<seq<Byte>>>)
    ensures r.Some? <==> n <= |Join(fs)|
    ensures r.Some? ==> Join(r.value) == Join(fs)[n..]
    decreases |fs|
  {
    if n == 0 then Some(fs)
    else if fs == [] then None
    else if n < |fs[0]| then
      var rest := [fs[0][n..]] + fs[1..];
      assert rest[1..] == fs[1..];
      assert Join(rest) == Join(fs)[n..];
      Some(rest)
    else Skipped(fs[1..], n - |fs[0]|)
  }

  /** The part of `s` that is still to be written when `done` of `dataSize` bytes are; size zero means no limit. */
  function Limited(s: seq<Byte>, dataSize: nat, done: nat): seq<Byte> {
    if dataSize == 0 || done + |s| <= dataSize then s else if done < dataSize then s[..dataSize - done] else []
  }

  /** What a driver is to be given of an image with the header and data sizes that it asked for. */
  function Payload(image: seq<Byte>, headerSize: nat, dataSize: nat, skip: bool): seq<Byte>
    requires skip ==> headerSize <= |image|
  {
    Limited(if skip then image[headerSize..] else image, dataSize, 0)
  }

  /** Byte by byte: from behind the header if that is skipped, as many as the data size says, or all if it is zero. */
  lemma PayloadBytes(image: seq<Byte>, headerSize: nat, dataSize: nat, skip: bool)
    requires skip ==> headerSize <= |image|
    ensures var start := if skip then headerSize else 0;
            var p := Payload(image, headerSize, dataSize, skip);
            && |p| == (if dataSize == 0 || start + dataSize > |image| then |image| - start else dataSize)
            && forall k :: 0 <= k < |p| ==> p[k] == image[start + k]
  {
  }

  /** How much of a fragment is written. */
  function Share(size: nat, dataSize: nat, done: nat): (n: nat)
    requires dataSize == 0 || done < dataSize
    ensures n <= size
  {
    if dataSize != 0 && dataSize - done < size then dataSize - done else size
  }

  /** One fragment, in terms of what is left to write. */
  lemma LimitedStep(before: seq<Byte>, f: seq<Byte>, rest: seq<Byte>, dataSize: nat, done: nat)
    requires dataSize == 0 || done < dataSize
    ensures var n := Share(|f|, dataSize, done);
            before + Limited(f + rest, dataSize, done) == (before + f[..n]) + Limited(rest, dataSize, done + n)
  {
    var n := Share(|f|, dataSize, done);
    assert Limited(f + rest, dataSize, done) == f[..n] + Limited(rest, dataSize, done + n);
  }

  class Manager {
    var state: State
    var headerSize: nat
    var dataSize: nat
    var writes: seq<seq<Byte>>
    var tables: seq<seq<seq<Byte>>>
    const driver: Driver

    /** The start of fpga_mgr_load. */
    constructor (driver: Driver, dataSize: nat)
      ensures this.driver == driver && writes == [] && tables == [] && state == Idle
      ensures headerSize == driver.initialHeaderSize && this.dataSize == dataSize
    {
      this.driver := driver;
      state, writes, tables, headerSize, this.dataSize := Idle, [], [], driver.initialHeaderSize, dataSize;
    }

    /** fpga_mgr_write: the driver takes the bytes and answers. */
    method DriverWrite(bytes: seq<Byte>) returns (ret: int)
      modifies this`writes
      ensures writes == old(writes) + [bytes]
      ensures ret == driver.write(|old(writes)|)
    {
      ret := driver.write(|writes|);
      writes := writes + [bytes];
    }

    /** One turn of the fragment loop of fpga_mgr_buf_load_sg: a fragment, or what is wanted of it. */
    method WriteFragment(f: seq<Byte>, count: nat, ghost rest: seq<Byte>) returns (ret: int, done: nat)
      requires dataSize == 0 || count < dataSize
      modifies this`writes
      ensures Join(writes) + Limited(rest, dataSize, done) == Join(old(writes)) + Limited(f + rest, dataSize, count)
      ensures old(Taken(driver, |writes|)) ==> (ret == 0 <==> Taken(driver, |writes|))
    {
      var length := Share(|f|, dataSize, count);
      LimitedStep(Join(writes), f, rest, dataSize, count);
      JoinAppend(writes, f[..length]);
      ret := DriverWrite(f[..length]);
      done := count + length;
    }

    /** The fragment loop of fpga_mgr_buf_load_sg. */
    method WriteFragments(fs: seq<seq<Byte>>) returns (ret: int)
      requires writes == []
      modifies this`writes
      ensures ret == 0 ==> Join(writes) == Limited(Join(fs), dataSize, 0)
      ensures Join(writes) <= Limited(Join(fs), dataSize, 0)
      ensures ret == 0 <==> Taken(driver, |writes|)
    {
      ret := 0;
      var i: nat, count: nat := 0, 0;
      ghost var whole := Limited(Join(fs), dataSize, 0);
      assert fs[0..] == fs;
      while i < |fs|
        invariant 0 <= i <= |fs| && ret == 0
        invariant (dataSize != 0 ==> count < dataSize) && Taken(driver, |writes|)
        invariant Join(writes) + Limited(Join(fs[i..]), dataSize, count) == whole
      {
        assert fs[i..][1..] == fs[i + 1..];
        ret, count := WriteFragment(fs[i], count, Join(fs[i + 1..]));
        if ret != 0 {
          return;
        }
        if dataSize != 0 && count >= dataSize {
          return;
        }
        i := i + 1;
      }
    }

    /** fpga_mgr_parse_header: a driver without a parser leaves the sizes alone. */
    method AskDriver(buf: seq<Byte>) returns (ret: int)
      modifies this`headerSize, this`dataSize
      ensures Parsed(ret, headerSize, dataSize) == Answer(driver, buf, old(headerSize), old(dataSize))
    {
      ret := 0;
      if driver.parseHeader.Some? {
        var p := driver.parseHeader.value(buf);
        ret, headerSize, dataSize := p.ret, p.headerSize, p.dataSize;
      }
    }

    /** fpga_mgr_parse_header_mapped. */
    method ParseHeaderMapped(image: seq<Byte>) returns (ret: int)
      modifies this`state, this`headerSize, this`dataSize
      ensures headerSize == Answer(driver, image, old(headerSize), old(dataSize)).headerSize
      ensures dataSize == Answer(driver, image, old(headerSize), old(dataSize)).dataSize
      ensures headerSize + dataSize > |image| ==> ret == EINVAL
      ensures ret == 0 <==>
                Answer(driver, image, old(headerSize), old(dataSize)).ret == 0 && headerSize + dataSize <= |image|
      ensures state == if ret == 0 then ParseHeader else ParseHeaderErr
    {
      state := ParseHeader;
      ret := AskDriver(image);
      if headerSize + dataSize > |image| {
        ret := EINVAL;
      }
      if ret != 0 {
        state := ParseHeaderErr;
      }
    }

    /** fpga_mgr_parse_header_sg_first: only the first fragment, if it is long enough. */
    method ParseHeaderSgFirst(fs: seq<seq<Byte>>) returns (ret: int)
      modifies this`state, this`headerSize, this`dataSize
      ensures fs != [] && |fs[0]| >= old(headerSize) ==>
                Parsed(ret, headerSize, dataSize) == Answer(driver, fs[0], old(headerSize), old(dataSize))
      ensures fs == [] || |fs[0]| < old(headerSize) ==>
                ret == EAGAIN && headerSize == old(headerSize) && dataSize == old(dataSize)
      ensures state == if ret == 0 || ret == EAGAIN then ParseHeader else ParseHeaderErr
    {
      state := ParseHeader;
      if fs != [] && |fs[0]| >= headerSize {
        ret := AskDriver(fs[0]);
      } else {
        ret := EAGAIN;
      }
      if ret != 0 && ret != EAGAIN {
        state := ParseHeaderErr;
      }
    }

    /** fpga_mgr_parse_header_sg: a growing copy of the start of the image, until the driver has seen enough. */
    method ParseHeaderSg(fs: seq<seq<Byte>>, granted: nat -> bool)
      returns (ret: int, buf: seq<Byte>, ghost lengths: seq<nat>)
      modifies this`state, this`headerSize, this`dataSize
      ensures ret != EAGAIN && buf <= Join(fs)
      ensures ret == 0 ==>
                Copies(driver, Join(fs), granted, 0, old(headerSize), old(dataSize), 0, lengths,
                       Header(|buf|, headerSize, dataSize))
      ensures ret != 0 ==>
                !exists sizes, h :: Copies(driver, Join(fs), granted, 0, old(headerSize), old(dataSize), 0, sizes, h)
      ensures ret == 0 ==> state == old(state) && Accepted(driver, buf, headerSize, dataSize)
      ensures ret == 0 && driver.parseHeader.None? ==> headerSize == old(headerSize) && dataSize == old(dataSize)
      ensures ret != 0 ==> state == ParseHeaderErr
      ensures Gathered(driver, Join(fs), granted, 0, old(headerSize), old(dataSize), 0) ==
              if ret == 0 then Some(Header(|buf|, headerSize, dataSize)) else None
    {
      var image := Join(fs);
      buf, ret, lengths := [], EAGAIN, [];
      var turn: nat := 0;
      while ret == EAGAIN
        invariant buf <= image && state == old(state)
        invariant ret == 0 ==> Accepted(driver, buf, headerSize, dataSize)
        invariant driver.parseHeader.None? ==> headerSize == old(headerSize) && dataSize == old(dataSize)
        invariant Gathered(driver, image, granted, 0, old(headerSize), old(dataSize), 0) ==
                  if ret == 0 then Some(Header(|buf|, headerSize, dataSize))
                  else if ret == EAGAIN then Gathered(driver, image, granted, |buf|, headerSize, dataSize, turn)
                  else None
        decreases ret == EAGAIN, |image| - |buf|
      {
        var wanted := headerSize;
        if wanted <= |buf| {
          ret := EFAULT;
          break;
        }
        if !granted(turn) {
          ret := ENOMEM;
          break;
        }
        if wanted > |image| {
          ret := EFAULT;
          break;
        }
        buf := buf + image[|buf|..wanted];
        assert buf == image[..wanted];
        ret := AskDriver(buf);
        turn := turn + 1;
      }
      GatheredExactly(driver, image, granted, old(headerSize), old(dataSize));
      if ret == 0 {
        lengths := CopiesOf(driver, image, granted, 0, old(headerSize), old(dataSize), 0);
      }
      if ret != 0 {
        state := ParseHeaderErr;
      }
    }

    /** fpga_mgr_write_init_buf. */
    method WriteInitBuf(buf: seq<Byte>) returns (ret: int)
      modifies this`state
      ensures ret == 0 <==> headerSize <= |buf| && driver.writeInit == 0
      ensures state == if ret == 0 then WriteInit else WriteInitErr
    {
      state := WriteInit;
      if headerSize > |buf| {
        ret := EINVAL;
      } else {
        ret := driver.writeInit;
      }
      if ret != 0 {
        state := WriteInitErr;
      }
    }

    /** fpga_mgr_prepare_sg. */
    method PrepareSg(fs: seq<seq<Byte>>, granted: nat -> bool) returns (ret: int)
      requires headerSize == driver.initialHeaderSize
      modifies this`state, this`headerSize, this`dataSize
      ensures ret == 0 ==> headerSize <= |Join(fs)| && state == WriteInit && driver.writeInit == 0
      ensures ret == 0 ==> HeaderSeen(driver, Join(fs), headerSize, dataSize)
      ensures ret == 0 && driver.parseHeader.None? ==> headerSize == old(headerSize) && dataSize == old(dataSize)
      ensures ret != 0 ==> state == ParseHeaderErr || state == WriteInitErr
      ensures ret == 0 <==> Prepared(driver, fs, granted, old(dataSize))
    {
      PreparedExactly(driver, fs, granted, dataSize);
      if driver.initialHeaderSize == 0 && driver.parseHeader.None? {
        ret := WriteInitBuf([]);
        assert Accepted(driver, Join(fs)[..0], headerSize, dataSize);
        return;
      }
      ret := ParseHeaderSgFirst(fs);
      if ret == 0 {
        FirstIsPrefix(fs);
        assert Join(fs)[..|fs[0]|] == fs[0];
        ret := WriteInitBuf(fs[0]);
        return;
      } else if ret != EAGAIN {
        return;
      }
      var buf;
      ghost var lengths;
      ret, buf, lengths := ParseHeaderSg(fs, granted);
      if ret != 0 {
        return;
      }
      assert Join(fs)[..|buf|] == buf;
      ret := WriteInitBuf(buf);
    }

    /** fpga_mgr_write_complete. */
    method Complete() returns (ret: int)
      modifies this`state
      ensures ret == driver.writeComplete
      ensures state == if ret == 0 then Operating else WriteCompleteErr
    {
      state := WriteComplete;
      ret := driver.writeComplete;
      state := if ret != 0 then WriteCompleteErr else Operating;
    }

    /** The part of fpga_mgr_buf_load_sg between the state changes: skip the header, then write the fragments. */
    method WriteImage(fs: seq<seq<Byte>>) returns (ret: int)
      requires writes == []
      modifies this`writes
      ensures driver.skipHeader && headerSize > |Join(fs)| ==> ret == EINVAL && writes == []
      ensures !driver.skipHeader || headerSize <= |Join(fs)| ==>
                Join(writes) <= Payload(Join(fs), headerSize, dataSize, driver.skipHeader)
      ensures ret == 0 ==> Join(writes) == Payload(Join(fs), headerSize, dataSize, driver.skipHeader)
      ensures !driver.skipHeader || headerSize <= |Join(fs)| ==> (ret == 0 <==> Taken(driver, |writes|))
    {
      var pieces := fs;
      if driver.skipHeader {
        var skipped := Skipped(fs, headerSize);
        if skipped.None? {
          return EINVAL;
        }
        pieces := skipped.value;
      }
      ret := WriteFragments(pieces);
    }

    /** fpga_mgr_write_sg: a driver that takes fragments itself gets the whole list. */
    method DriverWriteSg(fs: seq<seq<Byte>>) returns (ret: int)
      requires driver.writeSg.Some?
      modifies this`tables
      ensures tables == old(tables) + [fs] && ret == driver.writeSg.value
    {
      tables := tables + [fs];
      ret := driver.writeSg.value;
    }

    /** fpga_mgr_buf_load_sg. */
    method BufLoadSg(fs: seq<seq<Byte>>, granted: nat -> bool) returns (ret: int)
      requires headerSize == driver.initialHeaderSize && writes == []
      modifies this
      ensures ret == 0 <==> state == Operating
      ensures ret == 0 <==>
                Prepared(driver, fs, granted, old(dataSize)) && driver.writeComplete == 0 &&
                if driver.writeSg.Some? then driver.writeSg.value == 0 else Taken(driver, |writes|)
      ensures ret == 0 ==> HeaderSeen(driver, Join(fs), headerSize, dataSize) && headerSize <= |Join(fs)|
      ensures ret == 0 && driver.writeSg.None? ==>
                Join(writes) == Payload(Join(fs), headerSize, dataSize, driver.skipHeader)
      ensures driver.writeSg.Some? ==> writes == []
      ensures tables ==
              old(tables) + if driver.writeSg.Some? && Prepared(driver, fs, granted, old(dataSize)) then [fs] else []
      ensures ret == 0 ==> driver.writeInit == 0 == driver.writeComplete
      ensures ret == 0 && driver.parseHeader.None? ==> headerSize == old(headerSize) && dataSize == old(dataSize)
      ensures writes != [] ==> headerSize <= |Join(fs)|
      ensures writes != [] ==> Join(writes) <= Payload(Join(fs), headerSize, dataSize, driver.skipHeader)
    {
      ret := PrepareSg(fs, granted);
      if ret != 0 {
        return;
      }
      state := Write;
      if driver.writeSg.Some? {
        ret := DriverWriteSg(fs);
      } else {
        ret := WriteImage(fs);
      }
      if ret != 0 {
        state := WriteErr;
        return;
      }
      ret := Complete();
    }

    /** fpga_mgr_buf_load_mapped. */
    method BufLoadMapped(image: seq<Byte>) returns (ret: int)
      requires writes == []
      modifies this
      ensures ret == 0 <==> state == Operating
      ensures headerSize == Answer(driver, image, old(headerSize), old(dataSize)).headerSize
      ensures dataSize == Answer(driver, image, old(headerSize), old(dataSize)).dataSize
      ensures headerSize + dataSize > |image| ==> ret == EINVAL
      ensures ret == 0 <==>
                Answer(driver, image, old(headerSize), old(dataSize)).ret == 0 && headerSize + dataSize <= |image| &&
                driver.writeInit == 0 && driver.write(0) == 0 && driver.writeComplete == 0
      ensures ret == 0 ==> Join(writes) == Payload(image, headerSize, dataSize, driver.skipHeader)
    {
      ret := ParseHeaderMapped(image);
      if ret != 0 {
        return;
      }
      ret := WriteInitBuf(image);
      if ret != 0 {
        return;
      }
      var (start, count) := (0, |image|);
      if driver.skipHeader {
        start, count := headerSize, count - headerSize;
      }
      if dataSize != 0 {
        count := dataSize;
      }
      state := Write;
      ret := DriverWrite(image[start..start + count]);
      assert writes[1..] == [];
      if ret != 0 {
        state := WriteErr;
        return;
      }
      ret := Complete();
    }
  }

  /** A parser that was content with a first part of the image answers the same to the whole image. */
  ghost predicate StableOn(driver: Driver, image: seq<Byte>) {
    driver.parseHeader.Some? ==> forall n :: 0 <= n <= |image| ==> StableAt(driver.parseHeader.value, image, n)
  }

  ghost predicate StableAt(p: seq<Byte> -> Parsed, image: seq<Byte>, n: nat)
    requires n <= |image|
  {
    p(image[..n]).ret == 0 ==> p(image) == p(image[..n])
  }

  /** The driver takes everything that it is given in fragments. */
  ghost predicate TakesFragments(driver: Driver) {
    if driver.writeSg.Some? then driver.writeSg.value == 0 else forall k: nat :: driver.write(k) == 0
  }

  /**
   The same image from fragments and from one buffer, each with its own answers of the driver to its writes: where
   both loads succeed with the same sizes they give the driver the same bytes. If the parser does not change its mind
   about this image, the sizes are the same, and the load from fragments differs only in accepting an image that is
   shorter than its header says. An image that loads from a buffer loads from fragments exactly where its header can be
   read from them, and always if the parser is patient and there is memory.
   */
  method LoadBothWays(driver: Driver, again: nat -> int, dataSize: nat, fs: seq<seq<Byte>>, granted: nat -> bool)
    returns (fromFragments: int, fromBuffer: int, fragmentBytes: seq<Byte>, bufferBytes: seq<Byte>,
             fragmentSizes: (nat, nat), bufferSizes: (nat, nat))
    ensures fromFragments == 0 == fromBuffer && fragmentSizes == bufferSizes && driver.writeSg.None? ==>
              fragmentBytes == bufferBytes
    ensures fromBuffer == 0 && TakesFragments(driver) ==>
              (fromFragments == 0 <==> Readable(driver, fs, granted, dataSize))
    ensures fromBuffer == 0 && TakesFragments(driver) && 0 < driver.initialHeaderSize <= |Join(fs)| &&
            (exists n :: Patient(driver, Join(fs), n)) && (forall t: nat :: granted(t)) ==>
              fromFragments == 0
    ensures fromFragments == 0 && StableOn(driver, Join(fs)) ==> fragmentSizes == bufferSizes
    ensures fromFragments == 0 && StableOn(driver, Join(fs)) ==>
              (fromBuffer == 0 <==> fragmentSizes.0 + fragmentSizes.1 <= |Join(fs)| && again(0) == 0)
  {
    var a := new Manager(driver, dataSize);
    var b := new Manager(driver.(write := again), dataSize);
    fromFragments := a.BufLoadSg(fs, granted);
    fromBuffer := b.BufLoadMapped(Join(fs));
    if n :| Patient(driver, Join(fs), n) && 0 < driver.initialHeaderSize <= |Join(fs)| && forall t: nat :: granted(t) {
      PatientReads(driver, fs, granted, dataSize, n);
    }
    fragmentBytes, bufferBytes := Join(a.writes), Join(b.writes);
    fragmentSizes, bufferSizes := (a.headerSize, a.dataSize), (b.headerSize, b.dataSize);
    if fromFragments == 0 && driver.parseHeader.Some? && StableOn(driver, Join(fs)) {
      ghost var n :| 0 <= n <= |Join(fs)| && Accepted(driver, Join(fs)[..n], a.headerSize, a.dataSize);
      assert StableAt(driver.parseHeader.value, Join(fs), n);
    }
  }

  /** A parser that starts with 71 bytes and then wants 100: from pieces of 64 bytes the header is copied twice. */
  method HeaderInTwoCopies(image: seq<Byte>) returns (ret: int)
    requires |image| == 128
    ensures ret == 0
  {
    var parse := (buf: seq<Byte>) => if |buf| < 100 then Parsed(EAGAIN, 100, 0) else Parsed(0, 100, 0);
    var driver := Driver(71, false, Some(parse), 0, (call: nat) => 0, None, 0);
    var (fs, granted) := ([image[..64], image[64..]], (turn: nat) => true);
    assert fs[1..] == [image[64..]] && Join(fs[1..]) == image[64..];
    assert Join(fs) == image;
    assert Patient(driver, image, 100);
    PatientReads(driver, fs, granted, 0, 100);
    var m := new Manager(driver, 0);
    ret := m.BufLoadSg(fs, granted);
  }

  /** An image of one byte, of which a header asks for two: only the load from fragments accepts it. */
  method ShortImage() returns (fromFragments: int, fromBuffer: int)
    ensures fromFragments == 0 && fromBuffer == EINVAL
  {
    var driver := Driver(0, false, Some((buf: seq<Byte>) => Parsed(0, 0, 2)), 0, (call: nat) => 0, None, 0);
    var fs: seq<seq<Byte>> := [[7]];
    assert Join(fs) == [7];
    var granted := (turn: nat) => true;
    assert LongFirst(driver, fs) && ReadsHeader(driver, fs, granted, 0, Header(1, 0, 2));
    var a := new Manager(driver, 0);
    fromFragments := a.BufLoadSg(fs, granted);
    var b := new Manager(driver, 0);
    fromBuffer := b.BufLoadMapped([7]);
  }

  /** What the driver answers to a piece of the image. */
  function Answer(driver: Driver, buf: seq<Byte>, headerSize: nat, dataSize: nat): Parsed {
    match driver.parseHeader
    case None => Parsed(0, headerSize, dataSize)
    case Some(p) => p(buf)
  }

  /** The driver takes its first `calls` pieces. */
  ghost predicate Taken(driver: Driver, calls: nat) {
    forall k :: 0 <= k < calls ==> driver.write(k) == 0
  }

  /** What the regathering loop ends with: the length of its copy, and the sizes that the driver asked for. */
  function Gathered(driver: Driver, image: seq<Byte>, granted: nat -> bool,
                    have: nat, wanted: nat, dataSize: nat, turn: nat): Option<Header>
    decreases |image| - have
  {
    if wanted <= have || !granted(turn) || wanted > |image| then None else
      var p := Answer(driver, image[..wanted], wanted, dataSize);
      if p.ret == 0 then Some(Header(wanted, p.headerSize, p.dataSize))
      else if p.ret == EAGAIN then Gathered(driver, image, granted, wanted, p.headerSize, p.dataSize, turn + 1)
      else None
  }

  /** The copy of the header that write_init gets, and the sizes, if the header can be read. */
  function HeaderRead(driver: Driver, fs: seq<seq<Byte>>, granted: nat -> bool, dataSize: nat): Option<Header> {
    var first := driver.initialHeaderSize;
    if first == 0 && driver.parseHeader.None? then Some(Header(0, 0, dataSize))
    else if fs == [] || |fs[0]| < first then Gathered(driver, Join(fs), granted, 0, first, dataSize, 0)
    else
      var p := Answer(driver, fs[0], first, dataSize);
      if p.ret == 0 then Some(Header(|fs[0]|, p.headerSize, p.dataSize))
      else if p.ret == EAGAIN then Gathered(driver, Join(fs), granted, 0, p.headerSize, p.dataSize, 0)
      else None
  }

  /**
   The copies of the start of the image that the driver is asked with, by their sizes, from the turn `turn` on: the
   first has the size wanted, each is longer than the one before, lies in the image and gets its memory; to all but
   the last the driver answers that it wants the next, and with the last it is content.
   */
  ghost predicate Copies(driver: Driver, image: seq<Byte>, granted: nat -> bool,
                         have: nat, wanted: nat, dataSize: nat, turn: nat, sizes: seq<nat>, h: Header) {
    && sizes != [] && sizes[0] == wanted > have && sizes[|sizes| - 1] == h.seen
    && (forall i :: 0 <= i < |sizes| ==> Copied(image, granted, turn, sizes, i))
    && (forall i :: 0 <= i < |sizes| - 1 ==> AsksNext(driver, image, dataSize, sizes, i))
    && h.seen <= |image|
    && Answer(driver, image[..h.seen], h.seen, dataSize) == Parsed(0, h.headerSize, h.dataSize)
  }

  ghost predicate Copied(image: seq<Byte>, granted: nat -> bool, turn: nat, sizes: seq<nat>, i: nat)
    requires i < |sizes|
  {
    sizes[i] <= |image| && granted(turn + i)
  }

  ghost predicate AsksNext(driver: Driver, image: seq<Byte>, dataSize: nat, sizes: seq<nat>, i: nat)
    requires i + 1 < |sizes|
  {
    sizes[i] < sizes[i + 1] && AsksFor(driver, image, sizes[i], dataSize, sizes[i + 1])
  }

  /** The driver wants `next` bytes when it is asked with `size`. */
  ghost predicate AsksFor(driver: Driver, image: seq<Byte>, size: nat, dataSize: nat, next: nat) {
    size <= |image| &&
    var p := Answer(driver, image[..size], size, dataSize); p.ret == EAGAIN && p.headerSize == next
  }

  lemma {:induction false} CopiesGather(driver: Driver, image: seq<Byte>, granted: nat -> bool,
                                        have: nat, wanted: nat, dataSize: nat, turn: nat, sizes: seq<nat>, h: Header)
    requires Copies(driver, image, granted, have, wanted, dataSize, turn, sizes, h)
    ensures Gathered(driver, image, granted, have, wanted, dataSize, turn) == Some(h)
    decreases |sizes|
  {
    assert Copied(image, granted, turn, sizes, 0);
    if |sizes| == 1 {
      assert h.seen == wanted;
    } else {
      var p := Answer(driver, image[..wanted], wanted, dataSize);
      assert AsksNext(driver, image, dataSize, sizes, 0);
      CopiesRest(driver, image, granted, have, wanted, dataSize, turn, sizes, h, p.dataSize);
      CopiesGather(driver, image, granted, wanted, sizes[1], p.dataSize, turn + 1, sizes[1..], h);
    }
  }

  lemma CopiesRest(driver: Driver, image: seq<Byte>, granted: nat -> bool,
                   have: nat, wanted: nat, dataSize: nat, turn: nat, sizes: seq<nat>, h: Header, other: nat)
    requires Copies(driver, image, granted, have, wanted, dataSize, turn, sizes, h) && |sizes| > 1
    requires driver.parseHeader.Some?
    ensures Copies(driver, image, granted, wanted, sizes[1], other, turn + 1, sizes[1..], h)
  {
    var rest := sizes[1..];
    var next := turn + 1;
    forall i | 0 <= i < |rest| ensures Copied(image, granted, next, rest, i) {
      assert Copied(image, granted, turn, sizes, i + 1);
    }
    forall i | 0 <= i < |rest| - 1 ensures AsksNext(driver, image, other, rest, i) {
      assert AsksNext(driver, image, dataSize, sizes, i + 1);
    }
    assert AsksNext(driver, image, dataSize, sizes, 0);
  }

  lemma {:induction false} CopiesOf(driver: Driver, image: seq<Byte>, granted: nat -> bool,
                                    have: nat, wanted: nat, dataSize: nat, turn: nat) returns (sizes: seq<nat>)
    requires Gathered(driver, image, granted, have, wanted, dataSize, turn).Some?
    ensures Copies(driver, image, granted, have, wanted, dataSize, turn, sizes,
                   Gathered(driver, image, granted, have, wanted, dataSize, turn).value)
    decreases |image| - have
  {
    var p := Answer(driver, image[..wanted], wanted, dataSize);
    sizes := [wanted];
    if p.ret != 0 {
      var rest := CopiesOf(driver, image, granted, wanted, p.headerSize, p.dataSize, turn + 1);
      sizes := [wanted] + rest;
      var h := Gathered(driver, image, granted, have, wanted, dataSize, turn).value;
      CopiesFront(driver, image, granted, have, wanted, dataSize, turn, rest, h, p.dataSize);
    }
  }

  lemma CopiesFront(driver: Driver, image: seq<Byte>, granted: nat -> bool,
                    have: nat, wanted: nat, dataSize: nat, turn: nat, rest: seq<nat>, h: Header, other: nat)
    requires rest != [] && Copies(driver, image, granted, wanted, rest[0], other, turn + 1, rest, h)
    requires driver.parseHeader.Some? && have < wanted && granted(turn)
    requires AsksFor(driver, image, wanted, dataSize, rest[0])
    ensures Copies(driver, image, granted, have, wanted, dataSize, turn, [wanted] + rest, h)
  {
    var sizes := [wanted] + rest;
    assert sizes[|sizes| - 1] == rest[|rest| - 1];
    forall i | 0 <= i < |sizes| ensures Copied(image, granted, turn, sizes, i) {
      if i > 0 {
        assert Copied(image, granted, turn + 1, rest, i - 1);
      }
    }
    forall i | 0 <= i < |sizes| - 1 ensures AsksNext(driver, image, dataSize, sizes, i) {
      if i > 0 {
        assert AsksNext(driver, image, other, rest, i - 1);
      }
    }
  }

  lemma GatheredExactly(driver: Driver, image: seq<Byte>, granted: nat -> bool, wanted: nat, dataSize: nat)
    ensures Gathered(driver, image, granted, 0, wanted, dataSize, 0).Some? <==>
            exists sizes, h :: Copies(driver, image, granted, 0, wanted, dataSize, 0, sizes, h)
    ensures forall sizes, h :: Copies(driver, image, granted, 0, wanted, dataSize, 0, sizes, h) ==>
              Gathered(driver, image, granted, 0, wanted, dataSize, 0) == Some(h)
  {
    forall sizes, h | Copies(driver, image, granted, 0, wanted, dataSize, 0, sizes, h)
      ensures Gathered(driver, image, granted, 0, wanted, dataSize, 0) == Some(h)
    {
      CopiesGather(driver, image, granted, 0, wanted, dataSize, 0, sizes, h);
    }
    if Gathered(driver, image, granted, 0, wanted, dataSize, 0).Some? {
      var sizes := CopiesOf(driver, image, granted, 0, wanted, dataSize, 0);
    }
  }

  /** The first fragment is asked with, where it is as long as the header that the driver starts with. */
  predicate LongFirst(driver: Driver, fs: seq<seq<Byte>>) {
    fs != [] && |fs[0]| >= driver.initialHeaderSize
  }

  /**
   How the header comes to be read: not at all by a driver that does not care, in the first fragment if the driver is
   content with it, and in copies if it is too short or the driver wants more.
   */
  ghost predicate ReadsHeader(driver: Driver, fs: seq<seq<Byte>>, granted: nat -> bool, dataSize: nat, h: Header) {
    var first := driver.initialHeaderSize;
    if driver.parseHeader.None? && first == 0 then h == Header(0, 0, dataSize)
    else if !LongFirst(driver, fs) then InCopies(driver, Join(fs), granted, first, dataSize, h)
    else
      var p := Answer(driver, fs[0], first, dataSize);
      || (p.ret == 0 && h == Header(|fs[0]|, p.headerSize, p.dataSize))
      || (p.ret == EAGAIN && InCopies(driver, Join(fs), granted, p.headerSize, p.dataSize, h))
  }

  ghost predicate InCopies(driver: Driver, image: seq<Byte>, granted: nat -> bool, wanted: nat, dataSize: nat,
                           h: Header) {
    exists sizes :: Copies(driver, image, granted, 0, wanted, dataSize, 0, sizes, h)
  }

  /** The header can be read, lies in what was read of it, and the driver is ready. */
  ghost predicate Prepared(driver: Driver, fs: seq<seq<Byte>>, granted: nat -> bool, dataSize: nat) {
    Readable(driver, fs, granted, dataSize) && driver.writeInit == 0
  }

  ghost predicate Readable(driver: Driver, fs: seq<seq<Byte>>, granted: nat -> bool, dataSize: nat) {
    exists h :: ReadsHeader(driver, fs, granted, dataSize, h) && h.headerSize <= h.seen
  }

  lemma ReadExactly(driver: Driver, fs: seq<seq<Byte>>, granted: nat -> bool, dataSize: nat, h: Header)
    ensures HeaderRead(driver, fs, granted, dataSize) == Some(h) <==> ReadsHeader(driver, fs, granted, dataSize, h)
  {
    var first := driver.initialHeaderSize;
    InCopiesExactly(driver, Join(fs), granted, first, dataSize, h);
    if LongFirst(driver, fs) {
      var p := Answer(driver, fs[0], first, dataSize);
      InCopiesExactly(driver, Join(fs), granted, p.headerSize, p.dataSize, h);
    }
  }

  lemma InCopiesExactly(driver: Driver, image: seq<Byte>, granted: nat -> bool, wanted: nat, dataSize: nat, h: Header)
    ensures InCopies(driver, image, granted, wanted, dataSize, h) <==>
            Gathered(driver, image, granted, 0, wanted, dataSize, 0) == Some(h)
  {
    GatheredExactly(driver, image, granted, wanted, dataSize);
    if Gathered(driver, image, granted, 0, wanted, dataSize, 0) == Some(h) {
      var sizes := CopiesOf(driver, image, granted, 0, wanted, dataSize, 0);
    }
  }

  lemma PreparedExactly(driver: Driver, fs: seq<seq<Byte>>, granted: nat -> bool, dataSize: nat)
    ensures Prepared(driver, fs, granted, dataSize) <==>
            var h := HeaderRead(driver, fs, granted, dataSize);
            h.Some? && h.value.headerSize <= h.value.seen && driver.writeInit == 0
  {
    forall h ensures HeaderRead(driver, fs, granted, dataSize) == Some(h) <==>
                     ReadsHeader(driver, fs, granted, dataSize, h) {
      ReadExactly(driver, fs, granted, dataSize, h);
    }
    if HeaderRead(driver, fs, granted, dataSize).Some? {
      var h := HeaderRead(driver, fs, granted, dataSize).value;
      assert ReadsHeader(driver, fs, granted, dataSize, h);
    }
  }

  /**
   A parser that needs the first `n` bytes of the image: it asks for more, but never beyond these, as long as it has
   fewer, and is content with as many or more, in which its header then lies.
   */
  ghost predicate Patient(driver: Driver, image: seq<Byte>, n: nat) {
    && n <= |image| && driver.parseHeader.Some?
    && forall m :: 0 <= m <= |image| ==> PatientAt(driver.parseHeader.value, image, n, m)
  }

  ghost predicate PatientAt(parse: seq<Byte> -> Parsed, image: seq<Byte>, n: nat, m: nat)
    requires m <= |image|
  {
    var p := parse(image[..m]);
    if m < n then p.ret == EAGAIN && m < p.headerSize <= n else p.ret == 0 && p.headerSize <= n
  }

  lemma {:induction false} PatientGathers(driver: Driver, image: seq<Byte>, granted: nat -> bool, n: nat,
                                          have: nat, wanted: nat, dataSize: nat, turn: nat)
    requires Patient(driver, image, n) && have < wanted <= |image| && forall t: nat :: granted(t)
    ensures var h := Gathered(driver, image, granted, have, wanted, dataSize, turn);
            h.Some? && h.value.headerSize <= h.value.seen
    decreases |image| - have
  {
    assert PatientAt(driver.parseHeader.value, image, n, wanted);
    if wanted < n {
      var p := Answer(driver, image[..wanted], wanted, dataSize);
      PatientGathers(driver, image, granted, n, wanted, p.headerSize, p.dataSize, turn + 1);
    }
  }

  /** Such a header is read from every fragmentation of the image, if there is memory for the copies. */
  lemma PatientReads(driver: Driver, fs: seq<seq<Byte>>, granted: nat -> bool, dataSize: nat, n: nat)
    requires Patient(driver, Join(fs), n) && 0 < driver.initialHeaderSize <= |Join(fs)| && forall t: nat :: granted(t)
    ensures Readable(driver, fs, granted, dataSize)
  {
    var image := Join(fs);
    if LongFirst(driver, fs) {
      FirstIsPrefix(fs);
      assert image[..|fs[0]|] == fs[0] && PatientAt(driver.parseHeader.value, image, n, |fs[0]|);
      var p := driver.parseHeader.value(fs[0]);
      if |fs[0]| < n {
        PatientGathers(driver, image, granted, n, 0, p.headerSize, p.dataSize, 0);
      }
    } else {
      PatientGathers(driver, image, granted, n, 0, driver.initialHeaderSize, dataSize, 0);
    }
    var h := HeaderRead(driver, fs, granted, dataSize).value;
    ReadExactly(driver, fs, granted, dataSize, h);
  }

  /** The driver's parser is content with `buf` and asked for these sizes. */
  ghost predicate Accepted(driver: Driver, buf: seq<Byte>, headerSize: nat, dataSize: nat) {
    driver.parseHeader.Some? ==> driver.parseHeader.value(buf) == Parsed(0, headerSize, dataSize)
  }

  /** The driver's parser is content with some first part of the image. */
  ghost predicate HeaderSeen(driver: Driver, image: seq<Byte>, headerSize: nat, dataSize: nat) {
    exists n :: 0 <= n <= |image| && Accepted(driver, image[..n], headerSize, dataSize)
  }

  lemma FirstIsPrefix(fs: seq<seq<Byte>>)
    requires fs != []
    ensures fs[0] <= Join(fs)
  {
  }
}
