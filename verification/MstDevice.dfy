/**
 * Positioned transfers and multi sector protected transfers (libntfs/device.c).
 * The device and the buffers are sequences of 16-bit words; counts and positions are in words.
 */
module MstDevice {
  import opened Bytes
  import opened MstFixup
  import opened Slices

  /**
   * A device that may transfer less than it is asked for. The script lists what its next calls
   * do: at most so many words, 0 for end of file, a negative number for an error; past its end
   * requests are carried out in full.
   */
  class Device {
    var words: seq<word>
    var script: seq<int>

    constructor (words: seq<word>, script: seq<int>)
      ensures this.words == words && this.script == script
    {
      this.words := words;
      this.script := script;
    }

    method Next(count: nat, room: nat) returns (n: int)
      modifies this`script
      ensures n <= count && n <= room
      ensures old(script) == [] ==> script == [] && n == if room < count then room else count
    {
      var limit := count;
      if script != [] {
        limit := script[0];
        script := script[1..];
      }
      n := limit;
      if n > count { n := count; }
      if n > room { n := room; }
    }

    method Read(b: array<word>, at: nat, count: nat, pos: nat) returns (n: int)
      requires at + count <= b.Length
      modifies this`script, b
      ensures n <= count
      ensures n > 0 ==> pos + n <= |words| && b[..] == Patch(old(b[..]), at, words[pos..pos + n])
      ensures n <= 0 ==> b[..] == old(b[..])
      ensures old(script) == [] && pos + count <= |words| ==> n == count
      ensures old(script) == [] ==> script == []
    {
      n := Next(count, if pos < |words| then |words| - pos else 0);
      if n > 0 {
        forall k | 0 <= k < n { b[at + k] := words[pos + k]; }
        assert b[..] == Patch(old(b[..]), at, words[pos..pos + n]);
      }
    }

    method Write(b: array<word>, at: nat, count: nat, pos: nat) returns (n: int)
      requires at + count <= b.Length
      modifies this
      ensures n <= count
      ensures n > 0 ==> pos + n <= |old(words)| && words == Patch(old(words), pos, b[at..at + n])
      ensures n <= 0 ==> words == old(words)
      ensures old(script) == [] && pos + count <= |words| ==> n == count
      ensures old(script) == [] ==> script == []
    {
      n := Next(count, if pos < |words| then |words| - pos else 0);
      if n > 0 {
        words := Patch(words, pos, b[at..at + n]);
      }
    }
  }

  lemma Onto(b: seq<word>, at: nat, s: seq<word>, from: nat, m: nat, n: nat)
    requires from + m + n <= |s| && at + m + n <= |b|
    ensures Patch(Patch(b, at, s[from..from + m]), at + m, s[from + m..from + m + n])
            == Patch(b, at, s[from..from + m + n])
  {
    hide Patch;
    PatchTwice(b, at, s[from..from + m], s[from + m..from + m + n]);
    Parted(s, from, from + m, from + m + n);
  }

  /** ntfs_pread: what is returned was read, however the device split the transfer. */
  method PRead(dev: Device, pos: int, count: int, b: array<word>) returns (r: int)
    requires count <= b.Length
    modifies dev`script, b
    ensures count < 0 || pos < 0 ==> r == -1
    ensures r <= 0 ==> b[..] == old(b[..])
    ensures r > 0 ==> r <= count && 0 <= pos && pos + r <= |dev.words|
                      && b[..] == Patch(old(b[..]), 0, dev.words[pos..pos + r])
    ensures old(dev.script) == [] && 0 <= count && 0 <= pos && pos + count <= |dev.words| ==> r == count
  {
    hide Patch;
    if count < 0 || pos < 0 {
      return -1;
    }
    if count == 0 {
      return 0;
    }
    var total: nat, left: nat := 0, count;
    while left != 0
      invariant total + left == count && (total > 0 ==> pos + total <= |dev.words|)
      invariant total == 0 ==> b[..] == old(b[..])
      invariant total > 0 ==> b[..] == Patch(old(b[..]), 0, dev.words[pos..pos + total])
      invariant old(dev.script) == [] ==> dev.script == []
      decreases left
    {
      var br := dev.Read(b, total, left, pos + total);
      if br > 0 {
        if total > 0 {
          Onto(old(b[..]), 0, dev.words, pos, total, br);
        }
        left := left - br;
        total := total + br;
        continue;
      }
      if br == 0 || total != 0 {
        return total;
      }
      return br;
    }
    r := total;
  }

  lemma Parts(b: array<word>, total: nat, n: nat)
    requires total + n <= b.Length
    ensures b[total..total + n] == b[..][total..total + n]
    ensures b[..total] == b[..][0..total] && b[..total + n] == b[..][0..total + n]
  {
  }

  /** ntfs_pwrite */
  method PWrite(dev: Device, pos: int, count: int, b: array<word>) returns (r: int)
    requires count <= b.Length
    modifies dev
    ensures count < 0 || pos < 0 ==> r == -1
    ensures r <= 0 ==> dev.words == old(dev.words)
    ensures r > 0 ==> r <= count && 0 <= pos && pos + r <= |old(dev.words)|
                      && dev.words == Patch(old(dev.words), pos, b[..r])
    ensures old(dev.script) == [] && 0 <= count && 0 <= pos && pos + count <= |old(dev.words)| ==> r == count
    ensures old(dev.script) == [] ==> dev.script == []
  {
    hide Patch;
    if count < 0 || pos < 0 {
      return -1;
    }
    if count == 0 {
      return 0;
    }
    var total: nat, left: nat := 0, count;
    while left != 0
      invariant total + left == count && (total > 0 ==> pos + total <= |old(dev.words)|)
      invariant total == 0 ==> dev.words == old(dev.words)
      invariant total > 0 ==> dev.words == Patch(old(dev.words), pos, b[..total])
      invariant old(dev.script) == [] ==> dev.script == []
      decreases left
    {
      var written := dev.Write(b, total, left, pos + total);
      if written > 0 {
        if total > 0 {
          Onto(old(dev.words), pos, b[..], 0, total, written);
        }
        Parts(b, total, written);
        left := left - written;
        total := total + written;
        continue;
      }
      if written == 0 || total != 0 {
        return total;
      }
      return written;
    }
    r := total;
  }
}
