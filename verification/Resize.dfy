/**
 `resize` under every pattern of failing OS calls (`src/mmap.rs`,
 `resize`, `grow_locked`, both forms of `shrink_locked`).

 The mapping is a window of the file that starts at offset 0 and shares
 its bytes, so its contents are the file's first `mapLen` bytes. The two
 OS calls, `set_len` and mapping a file, have their effect or fail
 without one.
 */
module Resizing {
  import opened Ranges
  import opened Bounds

  /** `MAX_MMAP_SIZE` on 64-bit targets. */
  const MAX_MMAP_SIZE: nat := 128 * 0x100_0000_0000

  function Zeros(n: nat): (z: seq<Byte>)
    ensures |z| == n && forall k :: 0 <= k < n ==> z[k] == 0
  {
    seq(n, _ => 0)
  }

  /** `bytes` cut or extended by zeros to `n` bytes: what `set_len` does to a file. */
  function Resized(bytes: seq<Byte>, n: nat): (r: seq<Byte>)
    ensures |r| == n
    ensures forall k :: 0 <= k < n ==> r[k] == if k < |bytes| then bytes[k] else 0
  {
    if n <= |bytes| then bytes[..n] else bytes + Zeros(n - |bytes|)
  }

  /** The file and how much of it is mapped. */
  datatype Disk = Disk(file: seq<Byte>, mapLen: nat) {

    predicate Valid() {
      mapLen <= |file|
    }

    function Contents(): seq<Byte>
      requires Valid()
    {
      file[..mapLen]
    }

    /** Past the mapping the file holds nothing but zeros. */
    ghost predicate TailIsZero() {
      forall k :: mapLen <= k < |file| ==> file[k] == 0
    }
  }

  /** Which of the calls made by one resize succeed. */
  datatype Os = Os(anon: bool, setLen: bool, mapped: bool, undo: bool)

  function SetLen(d: Disk, n: nat, ok: bool): Disk {
    if ok then d.(file := Resized(d.file, n)) else d
  }

  /** Mapping the first `n` bytes; past the end of the file it is refused. */
  predicate Maps(d: Disk, n: nat, ok: bool) {
    ok && n <= |d.file|
  }

  /** A mapping of RW mode, resized in place. `windows` selects the shrink variant. */
  class ResizableFile {
    var file: seq<Byte>
    var mapLen: nat
    var cachedLen: nat
    const windows: bool

    ghost function Model(): Disk
      reads this
    {
      Disk(file, mapLen)
    }

    /** The mapping never extends past the file, and the cached length is its length. */
    ghost predicate Valid()
      reads this
    {
      mapLen <= |file| && cachedLen == mapLen
    }

    constructor (bytes: seq<Byte>, windows: bool)
      ensures Valid() && Model() == Disk(bytes, |bytes|) && this.windows == windows
    {
      file, mapLen, cachedLen := bytes, |bytes|, |bytes|;
      this.windows := windows;
    }

    method SetFileLen(n: nat, ok: bool)
      modifies `file
      ensures Model() == SetLen(old(Model()), n, ok)
    {
      if ok {
        file := if n <= |file| then file[..n] else file + Zeros(n - |file|);
      }
    }

    method Grow(newLen: nat, os: Os) returns (error: Option<Error>)
      requires mapLen < newLen
      modifies `file, `mapLen
      ensures (Model(), error) == GrowLocked(old(Model()), newLen, os)
    {
      if !os.setLen {
        return Some(Io);
      }
      var current := mapLen;
      SetFileLen(newLen, true);
      if os.mapped && newLen <= |file| {
        mapLen := newLen;
        return None;
      }
      SetFileLen(current, os.undo);
      return Some(Io);
    }

    method ShrinkUnix(newLen: nat, os: Os) returns (error: Option<Error>)
      requires newLen < mapLen
      modifies `file, `mapLen
      ensures (Model(), error) == ShrinkUnixLocked(old(Model()), newLen, os)
    {
      if !(os.mapped && newLen <= |file|) || !os.setLen {
        return Some(Io);
      }
      SetFileLen(newLen, true);
      mapLen := newLen;
      return None;
    }

    method ShrinkWindows(newLen: nat, os: Os) returns (error: Option<Error>)
      requires newLen < mapLen
      modifies `file, `mapLen
      ensures (Model(), error) == ShrinkWindowsLocked(old(Model()), newLen, os)
    {
      if !os.anon {
        return Some(Io);
      }
      var current := mapLen;
      mapLen := 0;
      if !os.setLen {
        if os.undo && current <= |file| {
          mapLen := current;
        }
        return Some(Io);
      }
      SetFileLen(newLen, true);
      if !(os.mapped && newLen <= |file|) {
        return Some(Io);
      }
      mapLen := newLen;
      return None;
    }

    method Resize(newSize: U64, os: Os) returns (error: Option<Error>)
      requires Valid()
      modifies this
      ensures Valid()
      ensures (Model(), error) == ResizeDisk(old(Model()), newSize, windows, os)
    {
      ResizeKeepsValid(Model(), newSize, windows, os);
      if newSize == 0 || newSize > MAX_MMAP_SIZE {
        return Some(ResizeFailed);
      }
      if newSize == mapLen {
        error := None;
      } else if newSize > mapLen {
        error := Grow(newSize, os);
      } else if windows {
        error := ShrinkWindows(newSize, os);
      } else {
        error := ShrinkUnix(newSize, os);
      }
      cachedLen := mapLen;
    }
  }

  // ----- the same on values -----

  function GrowLocked(d: Disk, newLen: nat, os: Os): (Disk, Option<Error>) {
    if !os.setLen then (d, Some(Io))
    else
      var grown := SetLen(d, newLen, true);
      if Maps(grown, newLen, os.mapped) then (grown.(mapLen := newLen), None)
      else (SetLen(grown, d.mapLen, os.undo), Some(Io))
  }

  function ShrinkUnixLocked(d: Disk, newLen: nat, os: Os): (Disk, Option<Error>) {
    if !Maps(d, newLen, os.mapped) || !os.setLen then (d, Some(Io))
    else (SetLen(d, newLen, true).(mapLen := newLen), None)
  }

  function ShrinkWindowsLocked(d: Disk, newLen: nat, os: Os): (Disk, Option<Error>) {
    if !os.anon then (d, Some(Io))
    else
      var unmapped := d.(mapLen := 0);
      if !os.setLen then
        (if Maps(unmapped, d.mapLen, os.undo) then d else unmapped, Some(Io))
      else
        var cut := SetLen(unmapped, newLen, true);
        if Maps(cut, newLen, os.mapped) then (cut.(mapLen := newLen), None) else (cut, Some(Io))
  }

  function ResizeDisk(d: Disk, newSize: nat, windows: bool, os: Os): (Disk, Option<Error>) {
    if newSize == 0 || newSize > MAX_MMAP_SIZE then (d, Some(ResizeFailed))
    else if newSize == d.mapLen then (d, None)
    else if newSize > d.mapLen then GrowLocked(d, newSize, os)
    else if windows then ShrinkWindowsLocked(d, newSize, os)
    else ShrinkUnixLocked(d, newSize, os)
  }

  // ----- what resize promises -----

  lemma ResizeKeepsValid(d: Disk, newSize: nat, windows: bool, os: Os)
    requires d.Valid()
    ensures ResizeDisk(d, newSize, windows, os).0.Valid()
  {
  }

  /** The Windows shrink gave up its view and could not map the file again. */
  predicate LosesView(d: Disk, newSize: nat, windows: bool, os: Os) {
    && windows && 0 < newSize < d.mapLen && newSize <= MAX_MMAP_SIZE
    && os.anon && if os.setLen then !os.mapped else !os.undo
  }

  /**
   An error leaves the mapping's length and bytes as they were, exactly
   unless the Windows shrink lost its view; then the mapping is empty.
   */
  lemma ErrorKeepsContents(d: Disk, newSize: nat, windows: bool, os: Os)
    requires d.Valid()
    ensures LosesView(d, newSize, windows, os) ==> ResizeDisk(d, newSize, windows, os).1 == Some(Io)
    ensures ResizeDisk(d, newSize, windows, os).1.Some? ==>
              var d' := ResizeDisk(d, newSize, windows, os).0;
              && d'.Valid()
              && (d'.Contents() == d.Contents() <==> !LosesView(d, newSize, windows, os))
              && (LosesView(d, newSize, windows, os) ==> d'.mapLen == 0 && d'.Contents() == [])
  {
    var (d', error) := ResizeDisk(d, newSize, windows, os);
    if error.Some? {
      if newSize != 0 && newSize <= MAX_MMAP_SIZE && newSize > d.mapLen && os.setLen {
        GrownPrefix(d, newSize);
        assert d'.Contents() == d.Contents();
      } else if LosesView(d, newSize, windows, os) {
        assert |d.Contents()| > 0;
      }
    }
  }

  /** What a failed resize leaves of the file. */
  function FileAfterError(d: Disk, newSize: nat, windows: bool, os: Os): seq<Byte> {
    if newSize == 0 || newSize > MAX_MMAP_SIZE || !os.setLen || newSize == d.mapLen then d.file
    else if newSize > d.mapLen then Resized(d.file, if os.undo then d.mapLen else newSize)
    else if windows && os.anon then Resized(d.file, newSize)
    else d.file
  }

  lemma CutTwice(bytes: seq<Byte>, m: nat, n: nat)
    requires n <= m
    ensures Resized(Resized(bytes, m), n) == Resized(bytes, n)
  {
  }

  /**
   An error loses bytes of the file exactly in two cases: a grow that fails
   to map and then cuts the file back to less than it held, and a Windows
   shrink that fails to map what it has cut.
   */
  lemma ErrorCutsFileIff(d: Disk, newSize: nat, windows: bool, os: Os)
    requires d.Valid() && ResizeDisk(d, newSize, windows, os).1.Some?
    ensures ResizeDisk(d, newSize, windows, os).0.file == FileAfterError(d, newSize, windows, os)
    ensures !(d.file <= ResizeDisk(d, newSize, windows, os).0.file) <==>
              && 0 < newSize <= MAX_MMAP_SIZE && os.setLen
              && (if newSize > d.mapLen then (if os.undo then d.mapLen else newSize) < |d.file|
                  else windows && os.anon)
  {
    if newSize > d.mapLen {
      CutTwice(d.file, newSize, d.mapLen);
    }
  }

  lemma GrownPrefix(d: Disk, newLen: nat)
    requires d.Valid() && d.mapLen < newLen
    ensures Resized(d.file, newLen)[..d.mapLen] == d.Contents()
    ensures Resized(Resized(d.file, newLen), d.mapLen) == d.Contents()
  {
  }

  /**
   A resize succeeds exactly if the size is allowed and either nothing is
   to do or the OS calls it needs succeed; the error tells the two apart.
   */
  lemma ResizeSucceedsIff(d: Disk, newSize: nat, windows: bool, os: Os)
    requires d.Valid()
    ensures var error := ResizeDisk(d, newSize, windows, os).1;
            && (error.None? <==>
                  0 < newSize <= MAX_MMAP_SIZE
                  && (newSize == d.mapLen
                      || (os.setLen && os.mapped && (windows && newSize < d.mapLen ==> os.anon))))
            && (error == Some(ResizeFailed) <==> newSize == 0 || newSize > MAX_MMAP_SIZE)
            && (error.Some? ==> error.value.ResizeFailed? || error.value.Io?)
  {
  }

  /**
   Success gives the mapping exactly the new length. The file is cut or
   extended to it, except by a resize to the current length, which leaves a
   longer file as it is.
   */
  lemma SuccessResizesFile(d: Disk, newSize: nat, windows: bool, os: Os)
    requires d.Valid() && ResizeDisk(d, newSize, windows, os).1.None?
    ensures ResizeDisk(d, newSize, windows, os).0 ==
            Disk(if newSize == d.mapLen then d.file else Resized(d.file, newSize), newSize)
  {
  }

  /**
   Success gives the old contents followed by zeros exactly if the file
   holds no other bytes where the mapping grows.
   */
  lemma GrowsByZerosIff(d: Disk, newSize: nat, windows: bool, os: Os)
    requires d.Valid() && ResizeDisk(d, newSize, windows, os).1.None?
    ensures var d' := ResizeDisk(d, newSize, windows, os).0;
            && d'.Valid()
            && (d'.Contents() == Resized(d.Contents(), newSize) <==>
                  forall k :: d.mapLen <= k < newSize && k < |d.file| ==> d.file[k] == 0)
  {
    var d' := ResizeDisk(d, newSize, windows, os).0;
    if newSize == d.mapLen {
      assert d'.Contents() == Resized(d.Contents(), newSize);
    } else {
      SuccessResizesFile(d, newSize, windows, os);
      var grown, zeros := d'.Contents(), Resized(d.Contents(), newSize);
      assert grown == Resized(d.file, newSize);
      if grown == zeros {
        forall k | d.mapLen <= k < newSize && k < |d.file| ensures d.file[k] == 0 {
          assert grown[k] == zeros[k];
        }
      }
    }
  }

  /** What of the mapped bytes the file still holds when the view is lost. */
  function LeftInFile(d: Disk, newSize: nat, os: Os): nat {
    if os.setLen then newSize else d.mapLen
  }

  lemma LostViewLeaves(d: Disk, newSize: nat, os: Os)
    requires d.Valid() && LosesView(d, newSize, true, os)
    ensures ResizeDisk(d, newSize, true, os).0 == Disk(if os.setLen then d.file[..newSize] else d.file, 0)
  {
  }

  /**
   Every outcome keeps the file zero past the mapping, exactly unless the
   view is lost while the mapping held other bytes than zeros where the
   file is kept.
   */
  lemma TailStaysZero(d: Disk, newSize: nat, windows: bool, os: Os)
    requires d.Valid() && d.TailIsZero()
    ensures ResizeDisk(d, newSize, windows, os).0.TailIsZero() <==>
              (LosesView(d, newSize, windows, os) ==>
                 forall k :: 0 <= k < LeftInFile(d, newSize, os) ==> d.file[k] == 0)
  {
    if LosesView(d, newSize, windows, os) {
      LostViewLeaves(d, newSize, os);
      var file := ResizeDisk(d, newSize, windows, os).0.file;
      var n := LeftInFile(d, newSize, os);
      assert forall k :: 0 <= k < |file| ==> file[k] == d.file[k];
      assert n <= |file| && forall k :: n <= k < |file| ==> file[k] == 0;
    }
  }

  /** One request and the fate of its OS calls. */
  datatype Request = Request(newSize: nat, os: Os)

  function ResizeAll(d: Disk, requests: seq<Request>, windows: bool): Disk {
    if requests == [] then d
    else
      var last := requests[|requests| - 1];
      ResizeDisk(ResizeAll(d, requests[..|requests| - 1], windows), last.newSize, windows, last.os).0
  }

  /** What the requests that succeed make of the bytes. */
  function Expected(d: Disk, requests: seq<Request>, windows: bool): seq<Byte>
    requires d.Valid()
  {
    if requests == [] then d.Contents()
    else
      var before, last := requests[..|requests| - 1], requests[|requests| - 1];
      var bytes := Expected(d, before, windows);
      if ResizeDisk(ResizeAll(d, before, windows), last.newSize, windows, last.os).1.None? then
        Resized(bytes, last.newSize)
      else bytes
  }

  /** No request of the run loses the view; outside Windows none can. */
  predicate KeepsView(d: Disk, requests: seq<Request>, windows: bool) {
    windows ==>
      forall k :: 0 <= k < |requests| ==>
        !LosesView(ResizeAll(d, requests[..k], windows), requests[k].newSize, windows, requests[k].os)
  }

  /** The view is kept by all requests exactly if it is by those before the last, and by the last. */
  lemma KeepsViewIff(d: Disk, requests: seq<Request>, windows: bool)
    requires requests != []
    ensures var before, last := requests[..|requests| - 1], requests[|requests| - 1];
            KeepsView(d, requests, windows) <==>
              KeepsView(d, before, windows)
              && !LosesView(ResizeAll(d, before, windows), last.newSize, windows, last.os)
  {
    var before := requests[..|requests| - 1];
    forall k | 0 <= k < |before| ensures before[..k] == requests[..k] && before[k] == requests[k] {
    }
  }

  /**
   Over any run of resizes of a fully mapped file in which no view is lost,
   whatever calls fail, the mapping holds what the successful resizes made
   of it: bytes cut off are gone, and growing exposes zeros.
   */
  lemma {:induction false} RunOfResizes(bytes: seq<Byte>, requests: seq<Request>, windows: bool)
    requires KeepsView(Disk(bytes, |bytes|), requests, windows)
    ensures var d, d' := Disk(bytes, |bytes|), ResizeAll(Disk(bytes, |bytes|), requests, windows);
            d'.Valid() && d'.TailIsZero() && d'.Contents() == Expected(d, requests, windows)
  {
    if requests == [] {
      assert Disk(bytes, |bytes|).Contents() == bytes;
    } else {
      var before, last := requests[..|requests| - 1], requests[|requests| - 1];
      KeepsViewIff(Disk(bytes, |bytes|), requests, windows);
      RunOfResizes(bytes, before, windows);
      var d := ResizeAll(Disk(bytes, |bytes|), before, windows);
      ResizeKeepsValid(d, last.newSize, windows, last.os);
      TailStaysZero(d, last.newSize, windows, last.os);
      if ResizeDisk(d, last.newSize, windows, last.os).1.None? {
        GrowsByZerosIff(d, last.newSize, windows, last.os);
      } else {
        ErrorKeepsContents(d, last.newSize, windows, last.os);
      }
    }
  }

  /** After the requests the mapping holds what the successful ones made of it. */
  predicate AsExpected(d: Disk, requests: seq<Request>, windows: bool)
    requires d.Valid()
  {
    var d' := ResizeAll(d, requests, windows);
    d'.Valid() && d'.Contents() == Expected(d, requests, windows)
  }

  /** The request at `k` is the first of the run to lose the view. */
  predicate FirstLoss(d: Disk, requests: seq<Request>, windows: bool, k: nat) {
    && k < |requests| && KeepsView(d, requests[..k], windows)
    && LosesView(ResizeAll(d, requests[..k], windows), requests[k].newSize, windows, requests[k].os)
  }

  lemma FirstLossOfPrefix(d: Disk, requests: seq<Request>, windows: bool, n: nat, k: nat)
    requires n <= |requests| && FirstLoss(d, requests[..n], windows, k)
    ensures FirstLoss(d, requests, windows, k)
  {
    assert requests[..n][..k] == requests[..k];
    assert requests[..n][k] == requests[k];
  }

  lemma {:induction false} SomeFirstLoss(d: Disk, requests: seq<Request>, windows: bool) returns (k: nat)
    requires !KeepsView(d, requests, windows)
    ensures FirstLoss(d, requests, windows, k)
  {
    assert requests != [];
    var n := |requests| - 1;
    KeepsViewIff(d, requests, windows);
    if KeepsView(d, requests[..n], windows) {
      k := n;
    } else {
      k := SomeFirstLoss(d, requests[..n], windows);
      FirstLossOfPrefix(d, requests, windows, n, k);
    }
  }

  /** A lost view empties a mapping that was expected to keep its bytes. */
  lemma LossIsUnexpected(bytes: seq<Byte>, requests: seq<Request>, windows: bool, k: nat)
    requires FirstLoss(Disk(bytes, |bytes|), requests, windows, k)
    ensures !AsExpected(Disk(bytes, |bytes|), requests[..k + 1], windows)
  {
    var d, before, last := Disk(bytes, |bytes|), requests[..k], requests[k];
    assert requests[..k + 1][..k] == before && requests[..k + 1][k] == last;
    RunOfResizes(bytes, before, windows);
    var now := ResizeAll(d, before, windows);
    ErrorKeepsContents(now, last.newSize, windows, last.os);
    assert |now.Contents()| > 0;
  }

  /**
   A run of resizes holds what is expected of it at every point exactly if
   no request of it loses the view.
   */
  lemma RunOfResizesIff(bytes: seq<Byte>, requests: seq<Request>, windows: bool)
    ensures KeepsView(Disk(bytes, |bytes|), requests, windows) <==>
              forall m :: 0 <= m <= |requests| ==> AsExpected(Disk(bytes, |bytes|), requests[..m], windows)
  {
    var d := Disk(bytes, |bytes|);
    if KeepsView(d, requests, windows) {
      forall m | 0 <= m <= |requests| ensures AsExpected(d, requests[..m], windows) {
        forall j | 0 <= j < m ensures requests[..m][..j] == requests[..j] && requests[..m][j] == requests[j] {
        }
        RunOfResizes(bytes, requests[..m], windows);
      }
    } else {
      var k := SomeFirstLoss(d, requests, windows);
      LossIsUnexpected(bytes, requests, windows, k);
      assert !AsExpected(d, requests[..k + 1], windows);
    }
  }

  /**
   With a lost view the same is false: the mapping is empty but the file is
   not, and the next resize brings its bytes back instead of zeros.
   */
  lemma WindowsGrowCanExposeBytes()
    ensures var d := Disk([7, 7], 2);
            var failed := ResizeDisk(d, 1, true, Os(true, false, true, false));
            var regrown := ResizeDisk(failed.0, 2, true, Os(true, true, true, true));
            && failed.1.Some? && failed.0.Valid() && failed.0.Contents() == []
            && regrown.1.None? && regrown.0.Valid() && regrown.0.Contents() == [7, 7]
            && regrown.0.Contents() != Resized(failed.0.Contents(), 2)
  {
    var d := Disk([7, 7], 2);
    var failed := ResizeDisk(d, 1, true, Os(true, false, true, false));
    assert Resized([7, 7], 2) == [7, 7];
    assert Resized(failed.0.Contents(), 2)[0] == 0;
  }

  /** And if that next resize fails to map, it cuts the file back to the empty mapping. */
  lemma FailedGrowCanEmptyFile()
    ensures var d := Disk([7, 7], 2);
            var failed := ResizeDisk(d, 1, true, Os(true, false, true, false));
            var regrown := ResizeDisk(failed.0, 2, true, Os(true, true, false, true));
            failed.0 == Disk([7, 7], 0) && regrown.1.Some? && regrown.0.file == []
  {
    assert Resized([7, 7], 2) == [7, 7];
  }
}
