/** Inode, descriptor and block accounting of the file system. */
module FileSystem {
  import opened Arithmetic
  import opened Words

  const MAX_BLOCKS: nat := 65536
  const BLOCK_SIZE: nat := 4096
  const MAX_INODES: nat := 4096
  const MAX_OPEN_FILES: nat := 1024
  const FREE_BLOCKS: nat := MAX_BLOCKS - 100  // what `filesystem_init` leaves free
  const FREE_INODES: nat := MAX_INODES - 10
  const MAX_FILE_SIZE: nat := 0x1000_0000  // MAX_BLOCKS * BLOCK_SIZE

  datatype Inode = Inode(number: nat, fileType: nat, permissions: nat, size: Word)

  datatype Descriptor = Descriptor(inode: nat, position: Word, fileType: nat, accessMode: nat, isOpen: bool)

  datatype Fs = Fs(
    inodes: seq<Inode>, fds: seq<Descriptor>,
    freeBlocks: Word, freeInodes: Word, nextInode: nat, nextBlock: nat, nextFd: nat)

  // ---------- The calls ----------

  datatype Call =
    | Create(fileType: nat, permissions: nat)
    | Open(inode: Word, accessMode: nat)
    | Close(fd: Word)
    | Read(fd: Word, size: Word)
    | Write(fd: Word, size: Word)
    | Seek(fd: Word, position: Word)
    | AllocateBlock

  predicate Shaped(s: Fs) {
    && |s.inodes| == MAX_INODES && |s.fds| == MAX_OPEN_FILES
    && 1 <= s.nextInode && s.nextInode + s.freeInodes == FREE_INODES + 1
    && forall f :: 0 <= f < |s.fds| ==> s.fds[f].inode < MAX_INODES
  }

  predicate Usable(s: Fs, fd: Word)
    requires Shaped(s)
  {
    fd < MAX_OPEN_FILES && s.fds[fd].isOpen
  }

  /** The inode behind a descriptor. */
  function InodeOf(s: Fs, fd: nat): Inode
    requires Shaped(s) && fd < MAX_OPEN_FILES
  {
    s.inodes[s.fds[fd].inode]
  }

  /** Bytes a read transfers: 32-bit arithmetic throughout. */
  function ReadLength(size: Word, position: Word, n: Word): Word {
    if Add32(position, n) > size then (if position <= size then size - position else size + MODULUS - position) else n
  }

  /** Blocks charged for a write: 32-bit arithmetic throughout. */
  function BlocksNeeded(n: Word): nat {
    Add32(n, BLOCK_SIZE - 1) / BLOCK_SIZE
  }

  predicate WriteAccepted(s: Fs, fd: Word, n: Word)
    requires Shaped(s)
  {
    && Usable(s, fd)
    && Add32(InodeOf(s, fd).size, n) <= MAX_FILE_SIZE
    && BlocksNeeded(n) <= s.freeBlocks
  }

  function SetPosition(s: Fs, fd: Word, position: Word): Fs
    requires Shaped(s) && fd < MAX_OPEN_FILES
  {
    s.(fds := s.fds[fd := s.fds[fd].(position := position)])
  }

  /** The state after a call and what it returns. */
  function Step(s: Fs, c: Call): (r: (Fs, nat))
    requires Shaped(s)
    ensures Shaped(r.0)
  {
    match c
    case Create(fileType, permissions) =>
      if s.freeInodes == 0 then (s, 0)
      else
        (s.(inodes := s.inodes[s.nextInode := Inode(s.nextInode, fileType, permissions, 0)],
            nextInode := s.nextInode + 1, freeInodes := s.freeInodes - 1),
         s.nextInode)
    case Open(inode, accessMode) =>
      if s.nextFd >= MAX_OPEN_FILES || inode >= MAX_INODES then (s, 0)
      else
        (s.(fds := s.fds[s.nextFd := Descriptor(inode, 0, s.inodes[inode].fileType, accessMode, true)],
            nextFd := s.nextFd + 1),
         s.nextFd)
    case Close(fd) =>
      if fd >= MAX_OPEN_FILES then (s, 0)
      else (s.(fds := s.fds[fd := s.fds[fd].(isOpen := false)]), 1)
    case Read(fd, size) =>
      if !Usable(s, fd) then (s, 0)
      else
        var n := ReadLength(InodeOf(s, fd).size, s.fds[fd].position, size);
        (SetPosition(s, fd, Add32(s.fds[fd].position, n)), n)
    case Write(fd, size) =>
      if !WriteAccepted(s, fd, size) then (s, 0)
      else
        var i, node := s.fds[fd].inode, InodeOf(s, fd);
        (SetPosition(s, fd, Add32(s.fds[fd].position, size))
           .(inodes := s.inodes[i := node.(size := Add32(node.size, size))],
             freeBlocks := s.freeBlocks - BlocksNeeded(size)),
         size)
    case Seek(fd, position) =>
      if !Usable(s, fd) || position > InodeOf(s, fd).size then (s, 0)
      else (SetPosition(s, fd, position), position)
    case AllocateBlock =>
      if s.freeBlocks == 0 then (s, 0)
      else (s.(nextBlock := s.nextBlock + 1, freeBlocks := s.freeBlocks - 1), s.nextBlock)
  }

  function Run(s: Fs, calls: seq<Call>): (r: Fs)
    requires Shaped(s)
    ensures Shaped(r)
    decreases |calls|
  {
    if calls == [] then s else Run(Step(s, calls[0]).0, calls[1..])
  }

  const NO_INODE := Inode(0, 0, 0, 0)
  const ROOT := Inode(0, 2, 0x1ED, 0)
  const CLOSED := Descriptor(0, 0, 0, 0, false)

  /** The zeroed static tables after `filesystem_init`. */
  function Boot(): (s: Fs)
    ensures Shaped(s)
  {
    Fs(seq(MAX_INODES, i => if i == 0 then ROOT else NO_INODE), seq(MAX_OPEN_FILES, i => CLOSED),
       FREE_BLOCKS, FREE_INODES, 1, 100, 3)
  }

  // ---------- What a client sees of each call ----------

  /** Only descriptor `fd` may differ. */
  predicate OnlyDescriptor(s: Fs, r: Fs, fd: nat) {
    && |r.fds| == |s.fds| && (forall f :: 0 <= f < |s.fds| && f != fd ==> r.fds[f] == s.fds[f])
    && r == s.(fds := r.fds)
  }

  /** What `filesystem_init` leaves: 4096 empty inodes, the first a directory, and no open descriptor. */
  lemma BootState()
    ensures var s := Boot();
            && |s.inodes| == 4096 && s.inodes[0].fileType == 2 && s.inodes[0].permissions == 0x1ED
            && (forall i :: 0 <= i < 4096 ==> s.inodes[i].size == 0)
            && |s.fds| == 1024 && (forall f: Word :: !Usable(s, f))
            && s.freeBlocks == 65436 && s.freeInodes == 4086
            && s.nextInode == 1 && s.nextBlock == 100 && s.nextFd == 3
  {
  }

  /** A file is created exactly when an inode is left: under the next number, empty, with the type and permissions
      given. No other inode and no descriptor changes. */
  lemma CreateMakesEmpty(s: Fs, fileType: nat, permissions: nat)
    requires Shaped(s)
    ensures var r := Step(s, Create(fileType, permissions));
            && (r.1 == 0 <==> s.freeInodes == 0) && (r.1 == 0 ==> r.0 == s)
            && (r.1 != 0 ==>
                  && r.1 == s.nextInode < 4096
                  && r.0.inodes[r.1] == Inode(r.1, fileType, permissions, 0)
                  && (forall i :: 0 <= i < 4096 && i != r.1 ==> r.0.inodes[i] == s.inodes[i])
                  && r.0.nextInode == s.nextInode + 1 && r.0.freeInodes == s.freeInodes - 1
                  && r.0 == s.(inodes := r.0.inodes, nextInode := r.0.nextInode, freeInodes := r.0.freeInodes))
  {
  }

  /** An inode is opened exactly when it is in the table and a descriptor is left: the new descriptor is usable, and a
      read through it returns the file from its start. No inode and no other descriptor changes. */
  lemma OpenStartsAtZero(s: Fs, inode: Word, accessMode: nat, n: Word)
    requires Accounted(s)
    ensures var r := Step(s, Open(inode, accessMode));
            && (r.1 == 0 <==> inode >= 4096 || s.nextFd >= 1024) && (r.1 == 0 ==> r.0 == s)
            && (r.1 != 0 ==>
                  && r.1 == s.nextFd && Usable(r.0, r.1) && r.0.fds[r.1].inode == inode
                  && r.0.fds[r.1].fileType == s.inodes[inode].fileType && r.0.fds[r.1].accessMode == accessMode
                  && r.0.nextFd == s.nextFd + 1
                  && OnlyDescriptor(s.(nextFd := s.nextFd + 1), r.0, r.1)
                  && Step(r.0, Read(r.1, n)).1 == Min(n, s.inodes[inode].size)
                  && Step(r.0, Read(r.1, n)).0.fds[r.1].position == Min(n, s.inodes[inode].size))
  {
  }

  /** A close ends the use of its descriptor and changes nothing else. */
  lemma CloseEndsUse(s: Fs, fd: Word)
    requires Shaped(s)
    ensures var r := Step(s, Close(fd));
            && (r.1 == if fd < 1024 then 1 else 0)
            && !Usable(r.0, fd) && OnlyDescriptor(s, r.0, fd)
            && (fd < 1024 ==> r.0.fds[fd] == s.fds[fd].(isOpen := false))
  {
  }

  /** A closed descriptor that was handed out before refuses every read, write and seek after any later run. */
  lemma ClosedForGood(s: Fs, fd: Word, calls: seq<Call>, n: Word)
    requires Accounted(s) && fd < s.nextFd
    ensures var r := Run(Step(s, Close(fd)).0, calls);
            Step(r, Read(fd, n)) == (r, 0) && Step(r, Write(fd, n)) == (r, 0) && Step(r, Seek(fd, n)) == (r, 0)
  {
    StepKeepsAccounts(s, Close(fd));
    ClosedStaysClosed(Step(s, Close(fd)).0, fd, calls);
  }

  /** A read needs a usable descriptor, moves it by what it reports, and changes nothing else. It is cut short exactly
      when its sum, taken modulo 2^32, is past the end of the file; it then ends there, wherever it began. */
  lemma ReadEndsAtSize(s: Fs, fd: Word, n: Word)
    requires Shaped(s)
    ensures var r := Step(s, Read(fd, n));
            && (!Usable(s, fd) ==> r == (s, 0))
            && (Usable(s, fd) ==>
                  && OnlyDescriptor(s, r.0, fd)
                  && r.0.fds[fd] == s.fds[fd].(position := (s.fds[fd].position + r.1) % 0x1_0000_0000)
                  && r.1 < 0x1_0000_0000
                  && if (s.fds[fd].position + n) % 0x1_0000_0000 <= InodeOf(s, fd).size then r.1 == n
                     else r.0.fds[fd].position == InodeOf(s, fd).size)
  {
  }

  /** A write of `n` bytes needs a usable descriptor, a size of at most 2^28 and the free blocks. It takes the least
      number of blocks that holds `n` bytes, or none when `n` is within a block of 2^32, and no other inode or
      descriptor changes. A refused write changes nothing. */
  lemma WriteCharges(s: Fs, fd: Word, n: Word)
    requires Shaped(s)
    ensures var r, blocks := Step(s, Write(fd, n)), if n <= 0xFFFF_F000 then CeilBlocks(n) else 0;
            if Usable(s, fd) && (InodeOf(s, fd).size + n) % 0x1_0000_0000 <= 0x1000_0000 && blocks <= s.freeBlocks then
              && r.1 == n
              && r.0.fds[fd] == s.fds[fd].(position := (s.fds[fd].position + n) % 0x1_0000_0000)
              && InodeOf(r.0, fd) == InodeOf(s, fd).(size := (InodeOf(s, fd).size + n) % 0x1_0000_0000)
              && (forall i :: 0 <= i < 4096 && i != s.fds[fd].inode ==> r.0.inodes[i] == s.inodes[i])
              && r.0.freeBlocks == s.freeBlocks - blocks
              && OnlyDescriptor(s.(inodes := r.0.inodes, freeBlocks := r.0.freeBlocks), r.0, fd)
            else r == (s, 0)
  {
    CeilIsBlocks(n);
  }

  /** The least number of blocks of 4096 bytes that hold `n` bytes. */
  function CeilBlocks(n: nat): (k: nat)
    ensures n <= 4096 * k < n + 4096
  {
    if n % 4096 == 0 then n / 4096 else n / 4096 + 1
  }

  lemma CeilIsBlocks(n: Word)
    ensures BlocksNeeded(n) == if n <= 0xFFFF_F000 then CeilBlocks(n) else 0
  {
  }

  /** What was just written is read back in full after a seek to where the write began, if no sum wraps. */
  lemma WriteThenRead(s: Fs, fd: Word, n: Word)
    requires Accounted(s) && Usable(s, fd) && s.fds[fd].position <= InodeOf(s, fd).size
    requires Step(s, Write(fd, n)).1 == n && InodeOf(s, fd).size + n < 0x1_0000_0000
    ensures var at := s.fds[fd].position;
            var r := Step(s, Write(fd, n)).0;
            && Step(r, Seek(fd, at)).1 == at
            && Step(Step(r, Seek(fd, at)).0, Read(fd, n)) == (r, n)
  {
    var at, r := s.fds[fd].position, Step(s, Write(fd, n)).0;
    assert r.fds[fd].position == at + n && InodeOf(r, fd).size == InodeOf(s, fd).size + n;
    var q := Step(Step(r, Seek(fd, at)).0, Read(fd, n)).0;
    assert q.fds == r.fds;
  }

  /** A seek is accepted exactly up to the end of the file; it moves its descriptor there and changes nothing else. A
      refused seek changes nothing. */
  lemma SeekMoves(s: Fs, fd: Word, position: Word)
    requires Shaped(s)
    ensures var r := Step(s, Seek(fd, position));
            if Usable(s, fd) && position <= InodeOf(s, fd).size then
              r.1 == position && OnlyDescriptor(s, r.0, fd) && r.0.fds[fd] == s.fds[fd].(position := position)
            else r == (s, 0)
  {
  }

  /** A block is handed out exactly when one is free: the next number, and one block less is free. */
  lemma AllocateTakesOne(s: Fs)
    requires Accounted(s)
    ensures var r := Step(s, AllocateBlock);
            && (r.1 == 0 <==> s.freeBlocks == 0) && (r.1 == 0 ==> r.0 == s)
            && (r.1 != 0 ==>
                  r.1 == s.nextBlock && r.0 == s.(nextBlock := s.nextBlock + 1, freeBlocks := s.freeBlocks - 1))
  {
  }

  // ---------- Storage charge ----------

  /** Blocks a file of `n` bytes fills. */
  function Blocks(n: nat): nat {
    (n + BLOCK_SIZE - 1) / BLOCK_SIZE
  }

  function BlocksOf(n: Inode): nat { Blocks(n.size) }

  function BytesOf(n: Inode): nat { n.size }

  function Total(ns: seq<Inode>, weight: Inode -> nat): nat {
    if ns == [] then 0 else Total(ns[..|ns| - 1], weight) + weight(ns[|ns| - 1])
  }

  function BlockSum(ns: seq<Inode>): nat { Total(ns, BlocksOf) }

  function ByteSum(ns: seq<Inode>): nat { Total(ns, BytesOf) }

  lemma {:induction false} TotalUpdate(ns: seq<Inode>, i: nat, n: Inode, weight: Inode -> nat)
    requires i < |ns|
    ensures Total(ns[i := n], weight) == Total(ns, weight) - weight(ns[i]) + weight(n)
    decreases |ns|
  {
    var last := |ns| - 1;
    if i < last {
      TotalUpdate(ns[..last], i, n, weight);
      assert ns[i := n][..last] == ns[..last][i := n];
    } else {
      assert ns[i := n][..last] == ns[..last];
    }
  }

  lemma {:induction false} EmptyTotal(ns: seq<Inode>, weight: Inode -> nat)
    requires forall i :: 0 <= i < |ns| ==> weight(ns[i]) == 0
    ensures Total(ns, weight) == 0
    decreases |ns|
  {
    if ns != [] {
      EmptyTotal(ns[..|ns| - 1], weight);
    }
  }

  lemma {:induction false} BytesFitBlocks(ns: seq<Inode>)
    ensures ByteSum(ns) <= BLOCK_SIZE * BlockSum(ns)
    decreases |ns|
  {
    if ns != [] {
      var last := |ns| - 1;
      BytesFitBlocks(ns[..last]);
      assert BytesOf(ns[last]) <= BLOCK_SIZE * BlocksOf(ns[last]);
    }
  }

  /** Counters that every call keeps, whatever its arguments. */
  predicate Accounted(s: Fs) {
    && Shaped(s)
    && 100 <= s.nextBlock && 1 <= s.nextFd
    && (forall i :: 0 <= i < |s.inodes| ==> s.inodes[i].size <= MAX_FILE_SIZE)
    && BlockSum(s.inodes) + (s.nextBlock - 100) + s.freeBlocks <= FREE_BLOCKS
  }

  /** A write that the checks let through is charged at least what it adds, even when its sums wrap. */
  lemma ChargeCovers(size: Word, n: Word)
    requires size <= MAX_FILE_SIZE && Add32(size, n) <= MAX_FILE_SIZE
    ensures Blocks(Add32(size, n)) <= Blocks(size) + BlocksNeeded(n)
  {
  }

  lemma StepKeepsAccounts(s: Fs, c: Call)
    requires Accounted(s)
    ensures Accounted(Step(s, c).0)
  {
    match c {
      case Create(fileType, permissions) =>
        if s.freeInodes > 0 {
          TotalUpdate(s.inodes, s.nextInode, Inode(s.nextInode, fileType, permissions, 0), BlocksOf);
        }
      case Write(fd, n) =>
        if WriteAccepted(s, fd, n) {
          var i, node := s.fds[fd].inode, InodeOf(s, fd);
          ChargeCovers(node.size, n);
          TotalUpdate(s.inodes, i, node.(size := Add32(node.size, n)), BlocksOf);
        }
      case _ =>
    }
  }

  lemma {:induction false} RunKeepsAccounts(s: Fs, calls: seq<Call>)
    requires Accounted(s)
    ensures Accounted(Run(s, calls))
    decreases |calls|
  {
    if calls != [] {
      StepKeepsAccounts(s, calls[0]);
      RunKeepsAccounts(Step(s, calls[0]).0, calls[1..]);
    }
  }

  lemma BootAccounted()
    ensures Accounted(Boot())
  {
    EmptyTotal(Boot().inodes, BlocksOf);
  }

  /** Over every run the blocks taken cover every file besides the blocks allocated singly, and the bytes stored fit
      the initial free space. */
  lemma StorageBounded(calls: seq<Call>)
    ensures var s := Run(Boot(), calls);
            && BlockSum(s.inodes) + (s.nextBlock - 100) <= FREE_BLOCKS - s.freeBlocks
            && ByteSum(s.inodes) <= BLOCK_SIZE * FREE_BLOCKS
  {
    BootAccounted();
    RunKeepsAccounts(Boot(), calls);
    BytesFitBlocks(Run(Boot(), calls).inodes);
  }

  // ---------- Number supply ----------

  datatype Supply = BlockNumbers | InodeNumbers | DescriptorNumbers

  predicate Draws(c: Call, k: Supply) {
    match k
    case BlockNumbers => c.AllocateBlock?
    case InodeNumbers => c.Create?
    case DescriptorNumbers => c.Open?
  }

  function NextNumber(s: Fs, k: Supply): nat {
    match k case BlockNumbers => s.nextBlock case InodeNumbers => s.nextInode case DescriptorNumbers => s.nextFd
  }

  function NumberLimit(k: Supply): nat {
    match k case BlockNumbers => MAX_BLOCKS case InodeNumbers => MAX_INODES case DescriptorNumbers => MAX_OPEN_FILES
  }

  /** The numbers of one kind a run hands out, in order; 0 reports a refusal. */
  function Issued(s: Fs, calls: seq<Call>, k: Supply): seq<nat>
    requires Shaped(s)
    decreases |calls|
  {
    if calls == [] then []
    else
      var r := Step(s, calls[0]);
      var rest := Issued(r.0, calls[1..], k);
      if Draws(calls[0], k) && r.1 != 0 then [r.1] + rest else rest
  }

  lemma StepNumbers(s: Fs, c: Call, k: Supply)
    requires Accounted(s)
    ensures var r := Step(s, c);
            if Draws(c, k) && r.1 != 0 then
              r.1 == NextNumber(s, k) < NextNumber(r.0, k) && r.1 < NumberLimit(k)
            else NextNumber(r.0, k) == NextNumber(s, k)
  {
  }

  /** Every number handed out is new and in range. */
  lemma {:induction false} NumbersFresh(s: Fs, calls: seq<Call>, k: Supply)
    requires Accounted(s)
    ensures Ascending(Issued(s, calls, k), NextNumber(s, k), NumberLimit(k))
    decreases |calls|
  {
    if calls != [] {
      var r := Step(s, calls[0]);
      StepKeepsAccounts(s, calls[0]);
      StepNumbers(s, calls[0], k);
      NumbersFresh(r.0, calls[1..], k);
      if Draws(calls[0], k) && r.1 != 0 {
        PrependAscending(r.1, Issued(r.0, calls[1..], k), NextNumber(r.0, k), NumberLimit(k));
      }
    }
  }

  /** A descriptor that was handed out and closed is never open again: every later use of it is refused. */
  lemma {:induction false} ClosedStaysClosed(s: Fs, fd: Word, calls: seq<Call>)
    requires Accounted(s) && fd < s.nextFd && !Usable(s, fd)
    ensures var r := Run(s, calls);
            && !Usable(r, fd)
            && forall n: Word :: Step(r, Read(fd, n)) == (r, 0) && Step(r, Write(fd, n)) == (r, 0)
                                 && Step(r, Seek(fd, n)) == (r, 0)
    decreases |calls|
  {
    if calls != [] {
      StepKeepsAccounts(s, calls[0]);
      ClosedStaysClosed(Step(s, calls[0]).0, fd, calls[1..]);
    }
  }

  // ---------- Descriptor safety ----------

  /** No open descriptor is past the end of its file. */
  predicate Safe(s: Fs)
    requires Shaped(s)
  {
    forall f :: 0 <= f < MAX_OPEN_FILES && s.fds[f].isOpen ==> s.fds[f].position <= InodeOf(s, f).size
  }

  /** The write goes through although the new size does not fit a word. */
  predicate WriteWraps(s: Fs, fd: Word, n: Word)
    requires Shaped(s)
  {
    WriteAccepted(s, fd, n) && InodeOf(s, fd).size + n >= MODULUS
  }

  /** No open descriptor has advanced in the inode that the next Create makes. */
  predicate Unadvanced(s: Fs)
    requires Shaped(s)
  {
    forall f :: 0 <= f < MAX_OPEN_FILES && s.fds[f].isOpen && s.fds[f].inode == s.nextInode ==> s.fds[f].position == 0
  }

  /** Every open descriptor on the file of `fd` can spare the 2^32 - n bytes that a wrapping write cuts off: the writer
      before its position, the others after theirs. */
  predicate Spares(s: Fs, fd: Word, n: Word)
    requires Shaped(s) && fd < MAX_OPEN_FILES
  {
    && s.fds[fd].position >= MODULUS - n
    && forall f :: 0 <= f < MAX_OPEN_FILES && f != fd && s.fds[f].isOpen && s.fds[f].inode == s.fds[fd].inode
         ==> s.fds[f].position <= InodeOf(s, fd).size - (MODULUS - n)
  }

  /** Creating a file is safe exactly when no open descriptor has already advanced in its inode. */
  lemma CreateSafety(s: Fs, fileType: nat, permissions: nat)
    requires Accounted(s) && Safe(s) && s.freeInodes > 0
    ensures Safe(Step(s, Create(fileType, permissions)).0) <==> Unadvanced(s)
  {
    var r := Step(s, Create(fileType, permissions)).0;
    if Safe(r) {
      forall f | 0 <= f < MAX_OPEN_FILES && s.fds[f].isOpen && s.fds[f].inode == s.nextInode
        ensures s.fds[f].position == 0
      {
        assert r.fds[f] == s.fds[f];
      }
    }
  }

  /** What a wrapping write does: it costs nothing and cuts the file by the 2^32 - n bytes the sum lost. Safety
      survives exactly when every open descriptor on the file has that many bytes to spare. */
  lemma WrappingWrite(s: Fs, fd: Word, n: Word)
    requires Accounted(s) && Safe(s) && WriteWraps(s, fd, n)
    ensures var r, cut, size := Step(s, Write(fd, n)).0, MODULUS - n, InodeOf(s, fd).size;
            && 0 < cut <= size && cut < BLOCK_SIZE
            && InodeOf(r, fd).size == size - cut && r.freeBlocks == s.freeBlocks
            && (Safe(r) <==> Spares(s, fd, n))
  {
    var r, cut, size := Step(s, Write(fd, n)).0, MODULUS - n, InodeOf(s, fd).size;
    assert BlocksNeeded(n) == 0;
    assert r.fds[fd].isOpen;
    if Safe(r) {
      assert r.fds[fd].position <= InodeOf(r, fd).size;
      forall f | 0 <= f < MAX_OPEN_FILES && f != fd && s.fds[f].isOpen && s.fds[f].inode == s.fds[fd].inode
        ensures s.fds[f].position <= size - cut
      {
        assert r.fds[f] == s.fds[f];
      }
    }
  }

  /** The guard under which a call leaves every descriptor within its file. */
  predicate Keeps(s: Fs, c: Call)
    requires Shaped(s)
  {
    match c
    case Create(_, _) => s.freeInodes == 0 || Unadvanced(s)
    case Write(fd, n) => WriteWraps(s, fd, n) ==> Spares(s, fd, n)
    case _ => true
  }

  lemma StepKeepsSafe(s: Fs, c: Call)
    requires Accounted(s) && Safe(s)
    ensures Safe(Step(s, c).0) <==> Keeps(s, c)
  {
    match c {
      case Create(fileType, permissions) => if s.freeInodes > 0 { CreateSafety(s, fileType, permissions); }
      case Write(fd, n) => if WriteWraps(s, fd, n) { WrappingWrite(s, fd, n); }
      case _ =>
    }
  }

  predicate KeepsRun(s: Fs, calls: seq<Call>)
    requires Shaped(s)
    decreases |calls|
  {
    calls == [] || (Keeps(s, calls[0]) && KeepsRun(Step(s, calls[0]).0, calls[1..]))
  }

  predicate SafeAfter(s: Fs, calls: seq<Call>, k: nat)
    requires Shaped(s) && k <= |calls|
  {
    Safe(Run(s, calls[..k]))
  }

  lemma SafeAfterStep(s: Fs, calls: seq<Call>, k: nat)
    requires Shaped(s) && k < |calls|
    ensures SafeAfter(s, calls, k + 1) <==> SafeAfter(Step(s, calls[0]).0, calls[1..], k)
  {
    assert calls[..k + 1][1..] == calls[1..][..k];
  }

  /** No descriptor is past the end of its file at any point of a run exactly when every call of the run meets its
      guard. */
  lemma {:induction false} SafeThroughout(s: Fs, calls: seq<Call>)
    requires Accounted(s) && Safe(s)
    ensures (forall k :: 0 <= k <= |calls| ==> SafeAfter(s, calls, k)) <==> KeepsRun(s, calls)
    decreases |calls|
  {
    assert SafeAfter(s, calls, 0);
    if calls != [] {
      var q, rest := Step(s, calls[0]).0, calls[1..];
      StepKeepsAccounts(s, calls[0]);
      StepKeepsSafe(s, calls[0]);
      assert SafeAfter(q, rest, 0) <==> Keeps(s, calls[0]);
      forall k | 0 <= k <= |rest| ensures SafeAfter(s, calls, k + 1) <==> SafeAfter(q, rest, k) {
        SafeAfterStep(s, calls, k);
      }
      assert forall k :: 0 < k <= |calls| ==> (SafeAfter(s, calls, k) <==> SafeAfter(q, rest, k - 1));
      if Keeps(s, calls[0]) { SafeThroughout(q, rest); }
    }
  }

  /** From boot on, any number of descriptors may share files, and none ever gets past the end of its file exactly
      when every call meets its guard. */
  lemma DescriptorsStaySafe(calls: seq<Call>)
    ensures (forall k :: 0 <= k <= |calls| ==> SafeAfter(Boot(), calls, k)) <==> KeepsRun(Boot(), calls)
  {
    BootAccounted();
    SafeThroughout(Boot(), calls);
  }

  /** From boot: open inode 1 before it exists, write one byte, create it; the descriptor is past the end of the new
      file. */
  lemma CreateBreaksSafety()
    ensures var r := Run(Boot(), [Open(1, 0), Write(3, 1), Create(1, 0)]);
            r.fds[3].isOpen && r.fds[3].position == 1 && InodeOf(r, 3).size == 0 && !Safe(r)
  {
    var calls := [Open(1, 0), Write(3, 1), Create(1, 0)];
    var s1 := Step(Boot(), calls[0]).0;
    var s2 := Step(s1, calls[1]).0;
    var s3 := Step(s2, calls[2]).0;
    assert s2.fds[3] == Descriptor(1, 1, 0, 0, true);
    assert s3.fds[3] == s2.fds[3] && s3.inodes[1] == Inode(1, 1, 0, 0);
    assert Run(Boot(), calls) == Run(s1, calls[1..]);
    assert calls[1..][1..] == [calls[2]];
    assert Run(s1, calls[1..]) == Run(s2, [calls[2]]);
    assert Run(s2, [calls[2]]) == Run(s3, []);
  }

  /** From boot: create, open, write one byte, seek to 0, write 2^32 - 1 bytes; the last call leaves the descriptor
      2^32 - 1 bytes into an empty file. */
  lemma WrappingWriteBreaksSafety()
    ensures var calls := [Create(1, 0), Open(1, 0), Write(3, 1), Seek(3, 0), Write(3, 0xFFFF_FFFF)];
            var r := Run(Boot(), calls);
            r.fds[3].isOpen && r.fds[3].position == 0xFFFF_FFFF && InodeOf(r, 3).size == 0 && !Safe(r)
  {
    var calls := [Create(1, 0), Open(1, 0), Write(3, 1), Seek(3, 0), Write(3, 0xFFFF_FFFF)];
    var s1 := Step(Boot(), calls[0]).0;
    var s2 := Step(s1, calls[1]).0;
    var s3 := Step(s2, calls[2]).0;
    var s4 := Step(s3, calls[3]).0;
    var s5 := Step(s4, calls[4]).0;
    assert s4.fds[3] == Descriptor(1, 0, 1, 0, true) && s4.inodes[1] == Inode(1, 1, 0, 1);
    assert s5.fds[3].position == 0xFFFF_FFFF && InodeOf(s5, 3).size == 0;
    RunFour(Boot(), calls);
    assert calls[4..] == [calls[4]];
    assert Run(s4, [calls[4]]) == Run(s5, []);
  }

  lemma RunFour(s: Fs, cs: seq<Call>)
    requires Shaped(s) && |cs| >= 4
    ensures Run(s, cs) == Run(Step(Step(Step(Step(s, cs[0]).0, cs[1]).0, cs[2]).0, cs[3]).0, cs[4..])
  {
    var t := Step(Step(s, cs[0]).0, cs[1]).0;
    assert Run(s, cs) == Run(t, cs[1..][1..]);
    assert cs[1..][1..] == cs[2..];
    var u := Step(Step(t, cs[2]).0, cs[3]).0;
    assert Run(t, cs[2..]) == Run(u, cs[2..][1..][1..]);
    assert cs[2..][1..][1..] == cs[4..];
  }

  /** A write grows the file and moves its descriptor by the same amount: what that descriptor has left to read stays
      the same, and every other descriptor on the file gains what was written. This is so exactly when the new size
      fits a word, or, for the writer alone, when its position wraps with it. */
  lemma WriteKeepsRemaining(s: Fs, fd: Word, n: Word, f: nat)
    requires Accounted(s) && Safe(s) && WriteAccepted(s, fd, n)
    requires f < MAX_OPEN_FILES && s.fds[f].isOpen && s.fds[f].inode == s.fds[fd].inode
    ensures var r := Step(s, Write(fd, n)).0;
            InodeOf(r, f).size - r.fds[f].position
            == InodeOf(s, f).size - s.fds[f].position + (if f == fd then 0 else n)
            <==> !WriteWraps(s, fd, n) || (f == fd && s.fds[fd].position + n >= MODULUS)
  {
  }

  // ---------- Conservation of bytes ----------

  /** The bytes a run's writes report as written. */
  function BytesWritten(s: Fs, calls: seq<Call>): nat
    requires Shaped(s)
    decreases |calls|
  {
    if calls == [] then 0
    else
      var r := Step(s, calls[0]);
      (if calls[0].Write? then r.1 else 0) + BytesWritten(r.0, calls[1..])
  }

  /** The bytes a call takes out of the files: those of an inode that Create empties, and 2^32 for a size that wraps. */
  function Lost(s: Fs, c: Call): nat
    requires Shaped(s)
  {
    match c
    case Create(_, _) => if s.freeInodes == 0 then 0 else s.inodes[s.nextInode].size
    case Write(fd, n) => if WriteWraps(s, fd, n) then MODULUS else 0
    case _ => 0
  }

  function BytesLost(s: Fs, calls: seq<Call>): nat
    requires Shaped(s)
    decreases |calls|
  {
    if calls == [] then 0 else Lost(s, calls[0]) + BytesLost(Step(s, calls[0]).0, calls[1..])
  }

  lemma StepBalance(s: Fs, c: Call)
    requires Accounted(s)
    ensures var r := Step(s, c);
            ByteSum(r.0.inodes) + Lost(s, c) == ByteSum(s.inodes) + if c.Write? then r.1 else 0
  {
    match c {
      case Create(fileType, permissions) =>
        if s.freeInodes > 0 {
          TotalUpdate(s.inodes, s.nextInode, Inode(s.nextInode, fileType, permissions, 0), BytesOf);
        }
      case Write(fd, n) =>
        if WriteAccepted(s, fd, n) {
          var i, node := s.fds[fd].inode, InodeOf(s, fd);
          TotalUpdate(s.inodes, i, node.(size := Add32(node.size, n)), BytesOf);
        }
      case _ =>
    }
  }

  /** Over every run the bytes stored and the bytes lost are the bytes stored before and the bytes reported. */
  lemma {:induction false} RunBalance(s: Fs, calls: seq<Call>)
    requires Accounted(s)
    ensures ByteSum(Run(s, calls).inodes) + BytesLost(s, calls) == ByteSum(s.inodes) + BytesWritten(s, calls)
    decreases |calls|
  {
    if calls != [] {
      StepKeepsAccounts(s, calls[0]);
      StepBalance(s, calls[0]);
      RunBalance(Step(s, calls[0]).0, calls[1..]);
    }
  }

  /** The guard under which a call loses no byte: no write wraps, and Create finds an empty inode. */
  predicate Conserves(s: Fs, c: Call)
    requires Shaped(s)
  {
    match c
    case Create(_, _) => s.freeInodes > 0 ==> s.inodes[s.nextInode].size == 0
    case Write(fd, n) => !WriteWraps(s, fd, n)
    case _ => true
  }

  predicate ConservesRun(s: Fs, calls: seq<Call>)
    requires Shaped(s)
    decreases |calls|
  {
    calls == [] || (Conserves(s, calls[0]) && ConservesRun(Step(s, calls[0]).0, calls[1..]))
  }

  lemma {:induction false} NothingLost(s: Fs, calls: seq<Call>)
    requires Shaped(s)
    ensures BytesLost(s, calls) == 0 <==> ConservesRun(s, calls)
    decreases |calls|
  {
    if calls != [] {
      NothingLost(Step(s, calls[0]).0, calls[1..]);
    }
  }

  lemma StoredFromBoot(calls: seq<Call>)
    ensures ByteSum(Run(Boot(), calls).inodes) + BytesLost(Boot(), calls) == BytesWritten(Boot(), calls)
  {
    BootAccounted();
    EmptyTotal(Boot().inodes, BytesOf);
    RunBalance(Boot(), calls);
  }

  /** From boot on, the sizes of all files add up to at most what the writes reported, and to exactly that when every
      call meets its guard and only then. */
  lemma BytesConserved(calls: seq<Call>)
    ensures var stored, reported := ByteSum(Run(Boot(), calls).inodes), BytesWritten(Boot(), calls);
            stored <= reported && (stored == reported <==> ConservesRun(Boot(), calls))
  {
    StoredFromBoot(calls);
    NothingLost(Boot(), calls);
  }

  lemma FirstCall(s: Fs, c: Call, calls: seq<Call>)
    requires Shaped(s)
    ensures var r, all := Step(s, c), [c] + calls;
            && Run(s, all) == Run(r.0, calls)
            && BytesWritten(s, all) == (if c.Write? then r.1 else 0) + BytesWritten(r.0, calls)
            && BytesLost(s, all) == Lost(s, c) + BytesLost(r.0, calls)
  {
    assert ([c] + calls)[1..] == calls;
  }

  /** From boot: open inode 1 before it exists, write one byte, create it; the byte reported is gone. */
  lemma CreateLosesByte()
    ensures var calls := [Open(1, 0), Write(3, 1), Create(1, 0)];
            BytesWritten(Boot(), calls) == 1 && ByteSum(Run(Boot(), calls).inodes) == 0
  {
    var open, write, create := Open(1, 0), Write(3, 1), Create(1, 0);
    var s1 := Step(Boot(), open).0;
    var s2 := Step(s1, write).0;
    assert s2.inodes[1].size == 1 && Step(s1, write).1 == 1;
    FirstCall(Boot(), open, [write, create]);
    FirstCall(s1, write, [create]);
    FirstCall(s2, create, []);
    assert [open, write, create] == [open] + [write, create] && [write, create] == [write] + [create];
    assert [create] == [create] + [];
    StoredFromBoot([open, write, create]);
  }

  /** From boot: create, open, write one byte, then write 2^32 - 1 bytes; all 2^32 bytes reported are gone. */
  lemma WrappingWriteLosesBytes()
    ensures var calls := [Create(1, 0), Open(1, 0), Write(3, 1), Write(3, 0xFFFF_FFFF)];
            BytesWritten(Boot(), calls) == MODULUS && ByteSum(Run(Boot(), calls).inodes) == 0
  {
    var create, open, write, wrap := Create(1, 0), Open(1, 0), Write(3, 1), Write(3, 0xFFFF_FFFF);
    var s1 := Step(Boot(), create).0;
    var s2 := Step(s1, open).0;
    var s3 := Step(s2, write).0;
    assert s2.fds[3] == Descriptor(1, 0, 1, 0, true) && s3.inodes[1].size == 1;
    FirstCall(Boot(), create, [open, write, wrap]);
    FirstCall(s1, open, [write, wrap]);
    FirstCall(s2, write, [wrap]);
    FirstCall(s3, wrap, []);
    assert [create, open, write, wrap] == [create] + [open, write, wrap];
    assert [open, write, wrap] == [open] + [write, wrap] && [write, wrap] == [write] + [wrap];
    assert [wrap] == [wrap] + [];
    StoredFromBoot([create, open, write, wrap]);
  }

  // ---------- Clients that keep to created files ----------

  /** Open descriptors refer to created inodes, and inodes that were not created yet are empty. */
  predicate Orderly(s: Fs)
    requires Shaped(s)
  {
    && (forall f :: 0 <= f < MAX_OPEN_FILES && s.fds[f].isOpen ==> s.fds[f].inode < s.nextInode)
    && (forall i :: s.nextInode <= i < MAX_INODES ==> s.inodes[i].size == 0)
  }

  /** Calls that the client is supposed to make: open created inodes only, and no write of wrapping size. */
  predicate Sound(s: Fs, c: Call)
    requires Shaped(s)
  {
    match c
    case Open(inode, _) => inode < s.nextInode
    case Write(fd, n) => !WriteWraps(s, fd, n)
    case _ => true
  }

  predicate SoundRun(s: Fs, calls: seq<Call>)
    requires Shaped(s)
    decreases |calls|
  {
    calls == [] || (Sound(s, calls[0]) && SoundRun(Step(s, calls[0]).0, calls[1..]))
  }

  lemma StepKeepsOrderly(s: Fs, c: Call)
    requires Accounted(s) && Orderly(s) && Sound(s, c)
    ensures Orderly(Step(s, c).0) && Keeps(s, c) && Conserves(s, c)
  {
  }

  /** Sound calls meet both guards. */
  lemma {:induction false} SoundRunKeeps(s: Fs, calls: seq<Call>)
    requires Accounted(s) && Orderly(s) && SoundRun(s, calls)
    ensures KeepsRun(s, calls) && ConservesRun(s, calls)
    decreases |calls|
  {
    if calls != [] {
      StepKeepsAccounts(s, calls[0]);
      StepKeepsOrderly(s, calls[0]);
      SoundRunKeeps(Step(s, calls[0]).0, calls[1..]);
    }
  }

  /** Clients that open only created inodes and make no wrapping write lose no byte, and none of their descriptors
      ever passes the end of its file. */
  lemma SoundClients(calls: seq<Call>)
    requires SoundRun(Boot(), calls)
    ensures ByteSum(Run(Boot(), calls).inodes) == BytesWritten(Boot(), calls)
    ensures forall k :: 0 <= k <= |calls| ==> SafeAfter(Boot(), calls, k)
  {
    BootAccounted();
    SoundRunKeeps(Boot(), calls);
    BytesConserved(calls);
    DescriptorsStaySafe(calls);
  }

  // ---------- Reading a file ----------

  lemma ReadLengthExact(size: Word, position: Word, n: Word)
    requires position <= size
    ensures ReadLength(size, position, n) == Min(n, size - position)
        <==> position + n < MODULUS || position + n - MODULUS > size
  {
  }

  /** The sum in the read's check does not wrap round into the file. */
  predicate Straight(s: Fs, fd: Word, n: Word)
    requires Shaped(s) && fd < MAX_OPEN_FILES
  {
    var end := s.fds[fd].position + n;
    end < MODULUS || end - MODULUS > InodeOf(s, fd).size
  }

  /** A read returns what is left of the file, up to what was asked for, and advances by as much, exactly when its sum
      does not wrap round into the file. */
  lemma ReadExact(s: Fs, fd: Word, n: Word)
    requires Shaped(s) && Safe(s) && Usable(s, fd)
    ensures var length := Min(n, InodeOf(s, fd).size - s.fds[fd].position);
            && (Step(s, Read(fd, n)).1 == length <==> Straight(s, fd, n))
            && (Straight(s, fd, n) ==> Step(s, Read(fd, n)).0 == SetPosition(s, fd, s.fds[fd].position + length))
  {
    ReadLengthExact(InodeOf(s, fd).size, s.fds[fd].position, n);
  }

  /** From boot: create, open, write two bytes, seek to 1, and read 2^32 - 1 bytes of the two-byte file: the read
      reports all of them and moves back to 0. */
  lemma WrappingReadRunsBack()
    ensures var calls := [Create(1, 0), Open(1, 0), Write(3, 2), Seek(3, 1)];
            var s := Run(Boot(), calls);
            && Usable(s, 3) && InodeOf(s, 3).size == 2 && s.fds[3].position == 1
            && Step(s, Read(3, 0xFFFF_FFFF)) == (SetPosition(s, 3, 0), 0xFFFF_FFFF)
  {
    var calls := [Create(1, 0), Open(1, 0), Write(3, 2), Seek(3, 1)];
    var s1 := Step(Boot(), calls[0]).0;
    var s2 := Step(s1, calls[1]).0;
    var s3 := Step(s2, calls[2]).0;
    var s4 := Step(s3, calls[3]).0;
    assert s2.fds[3] == Descriptor(1, 0, 1, 0, true) && s2.inodes[1] == Inode(1, 1, 0, 0);
    assert s3.fds[3] == Descriptor(1, 2, 1, 0, true) && s3.inodes[1] == Inode(1, 1, 0, 2);
    assert s4.fds[3] == Descriptor(1, 1, 1, 0, true) && s4.inodes[1] == Inode(1, 1, 0, 2);
    RunFour(Boot(), calls);
  }

  /** Random access: after an accepted seek a read returns what lies from there on, up to the request, and advances by
      as much, exactly when their sum does not wrap round into the file. */
  lemma SeekThenRead(s: Fs, fd: Word, position: Word, n: Word)
    requires Shaped(s) && Usable(s, fd) && position <= InodeOf(s, fd).size
    ensures var size := InodeOf(s, fd).size;
            var straight := position + n < MODULUS || position + n - MODULUS > size;
            var r := Step(s, Seek(fd, position));
            var q := Step(r.0, Read(fd, n));
            && r.1 == position
            && (q.1 == Min(n, size - position) <==> straight)
            && (straight ==> q.0 == SetPosition(s, fd, position + Min(n, size - position)))
  {
  }

  /** Consecutive reads of one descriptor, and the bytes they return in all. */
  function ReadAll(s: Fs, fd: Word, ns: seq<Word>): (r: (Fs, nat))
    requires Shaped(s)
    ensures Shaped(r.0)
    decreases |ns|
  {
    if ns == [] then (s, 0)
    else
      var r := Step(s, Read(fd, ns[0]));
      var q := ReadAll(r.0, fd, ns[1..]);
      (q.0, r.1 + q.1)
  }

  function Sum(ns: seq<Word>): nat {
    if ns == [] then 0 else ns[0] + Sum(ns[1..])
  }

  /** Every read of the run is straight when its turn comes. */
  predicate StraightRun(s: Fs, fd: Word, ns: seq<Word>)
    requires Shaped(s) && fd < MAX_OPEN_FILES
    decreases |ns|
  {
    ns == [] || (Straight(s, fd, ns[0]) && StraightRun(Step(s, Read(fd, ns[0])).0, fd, ns[1..]))
  }

  /** A run of reads returns all that is left of the file, up to the sum of the requests, exactly when every read in it
      is straight; then nothing but its position changes. */
  lemma {:induction false} ReadsDrainFile(s: Fs, fd: Word, ns: seq<Word>)
    requires Shaped(s) && Safe(s) && Usable(s, fd)
    ensures var (r, total) := ReadAll(s, fd, ns);
            && (total == Min(Sum(ns), InodeOf(s, fd).size - s.fds[fd].position) <==> StraightRun(s, fd, ns))
            && (StraightRun(s, fd, ns) ==> r == SetPosition(s, fd, s.fds[fd].position + total))
    decreases |ns|
  {
    if ns != [] {
      var rest := InodeOf(s, fd).size - s.fds[fd].position;
      var r := Step(s, Read(fd, ns[0]));
      ReadExact(s, fd, ns[0]);
      if Straight(s, fd, ns[0]) {
        assert r.0 == SetPosition(s, fd, s.fds[fd].position + r.1);
        assert Safe(r.0) && InodeOf(r.0, fd) == InodeOf(s, fd);
        ReadsDrainFile(r.0, fd, ns[1..]);
        assert ReadAll(s, fd, ns).1 == r.1 + ReadAll(r.0, fd, ns[1..]).1;
      } else {
        assert r.1 == ns[0] > rest;
        assert ReadAll(s, fd, ns).1 >= r.1;
      }
    }
  }

  // ---------- The tables in memory ----------

  class FileTables {
    const inodes: array<Inode>
    const fds: array<Descriptor>
    var freeBlocks: Word
    var freeInodes: Word
    var nextInode: nat
    var nextBlock: nat
    var nextFd: nat

    function State(): Fs
      reads this, inodes, fds
    {
      Fs(inodes[..], fds[..], freeBlocks, freeInodes, nextInode, nextBlock, nextFd)
    }

    predicate Valid()
      reads this, inodes, fds
    {
      Shaped(State())
    }

    constructor ()
      ensures Valid() && State() == Boot()
      ensures fresh(inodes) && fresh(fds)
    {
      inodes := new Inode[MAX_INODES](i => if i == 0 then ROOT else NO_INODE);
      fds := new Descriptor[MAX_OPEN_FILES](i => CLOSED);
      freeBlocks, freeInodes := FREE_BLOCKS, FREE_INODES;
      nextInode, nextBlock, nextFd := 1, 100, 3;
      new;
      assert inodes[..] == Boot().inodes && fds[..] == Boot().fds;
    }

    method CreateFile(fileType: nat, permissions: nat) returns (r: nat)
      requires Valid()
      modifies this, inodes
      ensures (State(), r) == Step(old(State()), Create(fileType, permissions))
    {
      if freeInodes == 0 { return 0; }
      r := nextInode;
      nextInode := nextInode + 1;
      inodes[r] := Inode(r, fileType, permissions, 0);
      freeInodes := freeInodes - 1;
    }

    method OpenFile(inode: Word, accessMode: nat) returns (r: nat)
      requires Valid()
      modifies this, fds
      ensures (State(), r) == Step(old(State()), Open(inode, accessMode))
    {
      if nextFd >= MAX_OPEN_FILES { return 0; }
      if inode >= MAX_INODES { return 0; }
      fds[nextFd] := Descriptor(inode, 0, inodes[inode].fileType, accessMode, true);
      r := nextFd;
      nextFd := nextFd + 1;
    }

    method CloseFile(fd: Word) returns (r: nat)
      requires Valid()
      modifies fds
      ensures (State(), r) == Step(old(State()), Close(fd))
    {
      if fd >= MAX_OPEN_FILES { return 0; }
      fds[fd] := fds[fd].(isOpen := false);
      r := 1;
    }

    method ReadFile(fd: Word, size: Word) returns (r: nat)
      requires Valid()
      modifies fds
      ensures (State(), r) == Step(old(State()), Read(fd, size))
    {
      if fd >= MAX_OPEN_FILES { return 0; }
      if !fds[fd].isOpen { return 0; }
      var node := inodes[fds[fd].inode];
      var position := fds[fd].position;
      r := ReadLength(node.size, position, size);
      fds[fd] := fds[fd].(position := Add32(position, r));
    }

    method WriteFile(fd: Word, size: Word) returns (r: nat)
      requires Valid()
      modifies this`freeBlocks, inodes, fds
      ensures (State(), r) == Step(old(State()), Write(fd, size))
    {
      if fd >= MAX_OPEN_FILES { return 0; }
      if !fds[fd].isOpen { return 0; }
      var i := fds[fd].inode;
      if Add32(inodes[i].size, size) > MAX_FILE_SIZE { return 0; }
      var needed := BlocksNeeded(size);
      if freeBlocks < needed { return 0; }
      inodes[i] := inodes[i].(size := Add32(inodes[i].size, size));
      fds[fd] := fds[fd].(position := Add32(fds[fd].position, size));
      freeBlocks := freeBlocks - needed;
      r := size;
    }

    method SeekFile(fd: Word, position: Word) returns (r: nat)
      requires Valid()
      modifies fds
      ensures (State(), r) == Step(old(State()), Seek(fd, position))
    {
      if fd >= MAX_OPEN_FILES { return 0; }
      if !fds[fd].isOpen { return 0; }
      if position > inodes[fds[fd].inode].size { return 0; }
      fds[fd] := fds[fd].(position := position);
      r := position;
    }

    method TakeBlock() returns (r: nat)
      requires Valid()
      modifies this`freeBlocks, this`nextBlock
      ensures (State(), r) == Step(old(State()), AllocateBlock)
    {
      if freeBlocks == 0 { return 0; }
      r := nextBlock;
      nextBlock := nextBlock + 1;
      freeBlocks := freeBlocks - 1;
    }
  }
}
