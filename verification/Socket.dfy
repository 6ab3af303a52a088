/** The byte stream that stands for src/net.c. Everything outside the program is one environment:
    how many bytes each call is granted, the random masking keys, and whether another thread
    shuts the loop down. Theorems quantify over every environment. */
module Sockets {
  import opened Bytes
  import opened Masking

  /** What the kernel makes of one peek, read or write: an error, a short count, or all of it. */
  datatype Grant = Fail | Upto(n: nat) | All

  /** The environment, tick by tick: what receiving calls are granted, what sends are granted, the
      random masking keys, and whether another thread shuts the loop down. */
  datatype Env = Env(receives: nat -> Grant, sends: nat -> Grant, keys: nat -> Key, shutdowns: nat -> bool)

  /** Every peek and read is served in full. Sends are not constrained. */
  ghost predicate Full(env: Env) {
    forall t :: env.receives(t) == All
  }

  /** Every send is served in full. Peeks and reads are not constrained. */
  ghost predicate FullSends(env: Env) {
    forall t :: env.sends(t) == All
  }

  datatype Net = Net(unread: seq<byte>, sent: seq<byte>, clock: nat, open: bool)

  function Tick(net: Net): Net { net.(clock := net.clock + 1) }

  /** The count a call returns on an open or closed connection when at most `most` bytes could move. */
  function Moved(g: Grant, open: bool, most: nat): (n: int)
    ensures -1 <= n <= most
  {
    if !open then -1
    else
      match g
      case Fail => -1
      case Upto(n) => if n <= most then n else most
      case All => most
  }

  function ReadCount(env: Env, net: Net, want: nat): (n: int)
    ensures -1 <= n <= want && n <= |net.unread|
  {
    Moved(env.receives(net.clock), net.open, if want <= |net.unread| then want else |net.unread|)
  }

  function AfterRead(env: Env, net: Net, want: nat): Net {
    var n := ReadCount(env, net, want);
    if n <= 0 then Tick(net) else Tick(net).(unread := net.unread[n..])
  }

  function SendCount(env: Env, net: Net, size: nat): (n: int)
    ensures -1 <= n <= size
  {
    Moved(env.sends(net.clock), net.open, size)
  }

  function AfterWrite(env: Env, net: Net, blob: seq<byte>): Net {
    var n := SendCount(env, net, |blob|);
    if n <= 0 then Tick(net) else Tick(net).(sent := net.sent + blob[..n])
  }

  class Socket {
    const env: Env
    var unread: seq<byte>
    var sent: seq<byte>
    var clock: nat
    var open: bool

    constructor (env: Env, unread: seq<byte>)
      ensures this.env == env && View() == Net(unread, [], 0, true)
    {
      this.env, this.unread, this.sent, this.clock, this.open := env, unread, [], 0, true;
    }

    ghost function View(): Net
      reads this
    {
      Net(unread, sent, clock, open)
    }

    method Take(g: Grant, most: nat) returns (n: int)
      modifies this`clock
      ensures n == Moved(g, open, most)
      ensures View() == Tick(old(View()))
    {
      if !open {
        n := -1;
      } else {
        match g {
          case Fail => n := -1;
          case Upto(k) => n := if k <= most then k else most;
          case All => n := most;
        }
      }
      clock := clock + 1;
    }

    /** recv with MSG_PEEK */
    method Peek(buf: array<byte>, want: nat) returns (n: int)
      requires want <= buf.Length
      modifies this`clock, buf
      ensures n == ReadCount(env, old(View()), want)
      ensures View() == Tick(old(View()))
      ensures n > 0 ==> buf[..n] == unread[..n]
    {
      n := Take(env.receives(clock), if want <= |unread| then want else |unread|);
      if n > 0 {
        forall i | 0 <= i < n {
          buf[i] := unread[i];
        }
      }
    }

    /** recv */
    method Read(buf: array<byte>, want: nat) returns (n: int)
      requires want <= buf.Length
      modifies this`clock, this`unread, buf
      ensures n == ReadCount(env, old(View()), want)
      ensures View() == AfterRead(env, old(View()), want)
      ensures n > 0 ==> buf[..n] == old(unread)[..n]
    {
      n := Take(env.receives(clock), if want <= |unread| then want else |unread|);
      if n > 0 {
        forall i | 0 <= i < n {
          buf[i] := unread[i];
        }
        unread := unread[n..];
      }
    }

    /** send */
    method Write(blob: array<byte>) returns (n: int)
      modifies this`clock, this`sent
      ensures n == SendCount(env, old(View()), blob.Length)
      ensures View() == AfterWrite(env, old(View()), blob[..])
    {
      n := Take(env.sends(clock), blob.Length);
      if n > 0 {
        sent := sent + blob[..n];
        assert blob[..][..n] == blob[..n];
      }
    }

    method Close()
      modifies this`open
      ensures View() == old(View()).(open := false)
    {
      open := false;
    }
  }
}
