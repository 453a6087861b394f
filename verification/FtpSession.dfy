/**
 The sockets of an FTP session and the life cycle of a pool entry (data_socket,
 close_data_socket, close_stream, command_port, command_pasv, the transfer commands, session and
 ftpd_daemon in cpukit/ftpd/ftpd.c). Close calls succeed; everything else the system is asked
 for may fail at any time. Other sessions share the descriptor table and may open and close
 descriptors, or store to /dev/null, whenever this one makes a system call.

 A store to /dev/null closes descriptor 0 without having opened it. Every claim below is made for
 sessions with such stores too; what they break is counted.
 */
module FtpSession {
  import opened Bytes
  import opened FtpDescriptors

  datatype Ip = Ip(a: byte, b: byte, c: byte, d: byte)

  datatype Addr = Addr(ip: Ip, port: nat)

  /** What happens to data connections, in order. */
  datatype Event =
    | NewSession(peer: Addr)     // a control connection from `peer` was given to the entry
    | PortAccepted(dest: Addr)   // a PORT command set the data address
    | Connected(dest: Addr)      // connect was called
    | PasvAccepted               // PASV accepted a data connection
    | PasvUsed                   // a transfer took the accepted connection
    | Reset                      // the default data address is in force again

  // ------------------------------------------------------------- what the record must say

  /** The peer of the session in progress. */
  function Peer(log: seq<Event>): Addr {
    if log == [] then Addr(Ip(0, 0, 0, 0), 0)
    else if log[|log| - 1].NewSession? then log[|log| - 1].peer
    else Peer(log[..|log| - 1])
  }

  /** The destination that is in force after `log`: a PORT address only directly after its PORT. */
  function InForce(log: seq<Event>): Addr {
    if log != [] && log[|log| - 1].PortAccepted? then log[|log| - 1].dest else Peer(log)
  }

  /** A passive connection waits: only directly after its PASV. */
  predicate Waiting(log: seq<Event>) {
    log != [] && log[|log| - 1].PasvAccepted?
  }

  /**
   An event that may follow `log`: PORT and connect stay with the peer's IP, connect uses the address
   in force, and a transfer takes a passive connection if and only if one waits.
   */
  predicate Allowed(log: seq<Event>, e: Event) {
    match e
    case PortAccepted(dest) => dest.ip == Peer(log).ip
    case Connected(dest) => dest == InForce(log) && dest.ip == Peer(log).ip && !Waiting(log)
    case PasvAccepted => !Waiting(log)
    case PasvUsed => Waiting(log)
    case NewSession(_) => true
    case Reset => true
  }

  ghost predicate Justified(log: seq<Event>) {
    forall i :: 0 <= i < |log| ==> Allowed(log[..i], log[i])
  }

  lemma JustifiedAppend(log: seq<Event>, e: Event)
    requires Justified(log) && Allowed(log, e)
    ensures Justified(log + [e])
  {
    var log' := log + [e];
    forall i | 0 <= i < |log'|
      ensures Allowed(log'[..i], log'[i])
    {
      if i < |log| {
        assert log'[..i] == log[..i] && log'[i] == log[i];
      } else {
        assert log'[..i] == log;
      }
    }
  }

  lemma {:induction false} PeerBefore(log: seq<Event>, i: nat) returns (j: nat)
    requires i < |log| && (exists k :: 0 <= k <= i && log[k].NewSession?)
    ensures j <= i && log[j].NewSession? && log[j].peer == Peer(log[..i + 1])
    ensures forall k :: j < k <= i ==> !log[k].NewSession?
    decreases i
  {
    assert log[..i + 1][..i] == log[..i];
    if log[i].NewSession? {
      j := i;
    } else {
      j := PeerBefore(log, i - 1);
      assert log[..i - 1 + 1] == log[..i];
    }
  }

  /**
   What a justified record means. Every connect goes to the IP of the control peer of the session
   it belongs to. If it is not to that peer's own address, the event just before it is the PORT that
   named it: no transfer, PASV, close or session change came between, so a PORT address serves one
   transfer at most and never outlives its session.
   */
  lemma ConnectsFollowPort(log: seq<Event>, i: nat) returns (j: nat)
    requires Justified(log) && i < |log| && log[i].Connected? && log[0].NewSession?
    ensures j < i && log[j].NewSession? && forall k :: j < k < i ==> !log[k].NewSession?
    ensures log[i].dest.ip == log[j].peer.ip
    ensures log[i].dest == log[j].peer || log[i - 1] == PortAccepted(log[i].dest)
    ensures log[i - 1].PortAccepted? ==> log[i].dest == log[i - 1].dest
    ensures !log[i - 1].PasvAccepted?
  {
    assert Allowed(log[..i], log[i]);
    j := PeerBefore(log, i - 1);
    assert log[..i - 1 + 1] == log[..i];
  }

  /**
   A transfer over a passive connection directly follows the PASV that accepted it: no transfer, PORT,
   close or session change came between, so a passive connection serves one transfer at most.
   */
  lemma PassiveServesOnce(log: seq<Event>, i: nat)
    requires Justified(log) && i < |log| && log[i].PasvUsed?
    ensures i > 0 && log[i - 1] == PasvAccepted
  {
    assert Allowed(log[..i], log[i]);
    assert i > 0 ==> log[..i][i - 1] == log[i - 1];
  }

  // ------------------------------------------------------------- the system

  function Name(s: int): multiset<nat> {
    if s >= 0 then multiset{s as nat} else multiset{}
  }

  /** The step that opens or closes a descriptor, none for -1. */
  function Opened(s: int): seq<Step> {
    if s >= 0 then [FtpDescriptors.Open(0, s)] else []
  }

  function Closed(s: int): seq<Step> {
    if s >= 0 then [FtpDescriptors.Close(0, s)] else []
  }

  lemma NoneOpened()
    ensures Opened(-1) == [] && Closed(-1) == []
  {
  }

  /** The system as one session sees it: the descriptor table, and who names which descriptor. */
  class System {
    // No other session runs.
    const quiet: bool

    var table: Table
    var others: multiset<nat>
    ghost var mine: multiset<nat>

    // All that happened to the table, session 0 being this one, and its own part of that.
    ghost var steps: seq<Step>
    ghost var acts: seq<Step>

    // What this session's entry did, and the final replies sent on its control connection.
    ghost var log: seq<Event>
    ghost var finals: nat

    ghost predicate Valid()
      reads this
    {
      Traced(steps, table, mine, others) && acts == Mine(steps)
    }

    /** Every descriptor that a session names is open and nobody else's. */
    ghost predicate Even()
      reads this
    {
      mine + others == multiset(table.owned)
    }

    /** What may have happened to the counts, `nulls` stores to /dev/null being this session's. */
    twostate predicate Ran(nulls: nat)
      reads this
    {
      && table.strays >= old(table.strays) && table.nulls >= old(table.nulls) + nulls
      && (quiet ==> others == old(others) && table.nulls == old(table.nulls) + nulls)
    }

    constructor (quiet: bool)
      ensures this.quiet == quiet && table == EMPTY && others == mine == multiset{} && Valid()
      ensures acts == [] && log == [] && finals == 0
    {
      this.quiet, table, others, mine := quiet, EMPTY, multiset{}, multiset{};
      steps, acts, log, finals := [], [], [], 0;
      TracedStart();
    }

    /** Other sessions run: any number of steps of theirs. */
    method Interfere()
      requires Valid()
      modifies this`table, this`steps, this`others
      ensures Valid() && Ran(0) && OnlyOthers()
      ensures quiet ==> table == old(table) && others == old(others)
    {
      hide Traced, Mine;
      var n: nat := *;
      while n > 0 && !quiet
        invariant Valid() && Ran(0) && OnlyOthers()
        invariant quiet ==> table == old(table) && others == old(others)
      {
        InterfereOnce();
        n := n - 1;
      }
    }

    twostate predicate OnlyOthers()
      reads this
    {
      old(steps) <= steps && forall k :: |old(steps)| <= k < |steps| ==> steps[k].i == 1
    }

    method InterfereOnce()
      requires Valid() && !quiet
      modifies this`table, this`steps, this`others
      ensures Valid() && Ran(0) && OnlyOthers()
    {
      hide Traced, OpenIn, CloseIn, NullIn, Mine;
      var e: nat := *;
      var what: int := *;
      TracedOthers(steps, table, mine, others, e);
      MineAppend(steps, FtpDescriptors.Null(1));
      MineAppend(steps, FtpDescriptors.Close(1, e));
      MineAppend(steps, FtpDescriptors.Open(1, e));
      if what == 0 {
        table, steps := NullIn(table), steps + [FtpDescriptors.Null(1)];
      } else if what == 1 && e in others {
        table, others, steps := CloseIn(table, e), others - multiset{e}, steps + [FtpDescriptors.Close(1, e)];
      } else if e !in table.owned {
        table, others, steps := OpenIn(table, e), others + multiset{e}, steps + [FtpDescriptors.Open(1, e)];
      }
    }

    /** socket, accept, open, creat or opendir: a descriptor that is not open, or -1. */
    method Open() returns (s: int)
      requires Valid()
      modifies this`table, this`steps, this`acts, this`others, this`mine
      ensures Valid() && s >= -1 && mine == old(mine) + Name(s) && acts == old(acts) + Opened(s) && Ran(0)
      ensures quiet ==> if s < 0 then table == old(table) else s !in old(table.owned) && table == OpenIn(old(table), s)
    {
      hide Traced, Mine;
      Interfere();
      s := *;
      if s < 0 || s in table.owned {
        s := -1;
        assert mine + multiset{} == mine && acts + [] == acts;
      } else {
        TracedMine(steps, table, mine, others, s);
        table := OpenIn(table, s);
        MineAppend(steps, FtpDescriptors.Open(0, s));
        mine, steps, acts := mine + multiset{s as nat}, steps + [FtpDescriptors.Open(0, s)], acts + [FtpDescriptors.Open(0, s)];
      }
    }

    /** close, on success: of a descriptor that the session names. */
    method Close(s: nat)
      requires Valid() && s in mine
      modifies this`table, this`steps, this`acts, this`others, this`mine
      ensures Valid() && mine == old(mine) - multiset{s} && acts == old(acts) + Closed(s) && Ran(0)
      ensures quiet ==> table == CloseIn(old(table), s)
    {
      hide Traced, Mine;
      Interfere();
      TracedMine(steps, table, mine, others, s);
      table := CloseIn(table, s);
      MineAppend(steps, FtpDescriptors.Close(0, s));
      mine, steps, acts := mine - multiset{s}, steps + [FtpDescriptors.Close(0, s)], acts + [FtpDescriptors.Close(0, s)];
    }

    /** A store to /dev/null closes descriptor 0, whoever has it. */
    method CloseNull()
      requires Valid()
      modifies this`table, this`steps, this`acts, this`others
      ensures Valid() && acts == old(acts) + [FtpDescriptors.Null(0)] && Ran(1)
      ensures quiet ==> table == NullIn(old(table))
    {
      hide Traced, Mine;
      Interfere();
      TracedMine(steps, table, mine, others, 0);
      table := NullIn(table);
      MineAppend(steps, FtpDescriptors.Null(0));
      steps, acts := steps + [FtpDescriptors.Null(0)], acts + [FtpDescriptors.Null(0)];
    }

    method Connect(dest: Addr) returns (ok: bool)
      requires Valid()
      modifies this`table, this`steps, this`others, this`log
      ensures Valid() && Ran(0) && log == old(log) + [Connected(dest)]
      ensures quiet ==> table == old(table)
    {
      hide Traced, Mine;
      Interfere();
      log := log + [Connected(dest)];
      ok := *;
    }

    ghost method Record(e: Event)
      modifies this`log
      ensures log == old(log) + [e]
    {
      log := log + [e];
    }

    /** A reply that ends a command: any but the preliminary 150. */
    ghost method Reply()
      modifies this`finals
      ensures finals == old(finals) + 1
    {
      finals := finals + 1;
    }
  }

  lemma EvenIff(sys: System)
    requires sys.Valid()
    ensures sys.table.strays <= sys.table.nulls && (sys.Even() <==> sys.table.strays == sys.table.nulls)
  {
    TracedKept(sys.steps, sys.table, sys.mine, sys.others);
    KeptEven(sys.table, sys.mine + sys.others);
  }

  /** The names of a session: its control, data and file descriptors; -1 stands for none. */
  function Names(ctrl: int, data: int, fd: int): multiset<nat> {
    Name(ctrl) + Name(data) + Name(fd)
  }

  lemma NamesOpened(ctrl: int, data: int, fd: int, s: int)
    ensures data == -1 ==> Names(ctrl, data, fd) + Name(s) == Names(ctrl, s, fd)
    ensures fd == -1 ==> Names(ctrl, data, fd) + Name(s) == Names(ctrl, data, s)
  {
  }

  lemma NamesClosed(ctrl: int, data: int, fd: int)
    ensures Name(data) <= Names(ctrl, data, fd) && Names(ctrl, data, fd) - Name(data) == Names(ctrl, -1, fd)
    ensures Name(fd) <= Names(ctrl, data, fd) && Names(ctrl, data, fd) - Name(fd) == Names(ctrl, data, -1)
    ensures Names(ctrl, -1, -1) == Name(ctrl)
  {
  }

  /**
   Closing descriptor 0 and then the data descriptor, when all names are open and different: the second
   close of one of them is stray unless descriptor 0 was the control connection or another session's.
   */
  lemma NullThenData(t: Table, ctrl: nat, data: nat, others: multiset<nat>)
    requires multiset{ctrl, data} + others == multiset(t.owned)
    ensures var t' := CloseIn(NullIn(t), data);
            && t'.strays == t.strays + (if ctrl == 0 || 0 in others then 0 else 1)
            && (ctrl in t'.owned <==> ctrl != 0)
            && forall n :: n in others && n != 0 ==> n in t'.owned
  {
    var named := multiset{ctrl, data} + others;
    assert forall n :: n in named <==> n in t.owned;
    assert forall n :: named[n] <= 1;
    assert named[ctrl] >= 1 + (if data == ctrl then 1 else 0) + others[ctrl];
    assert named[data] >= 1 + others[data];
  }

  // ------------------------------------------------------------- addresses

  /** The address fields agree with the record. */
  ghost predicate Addressed(log: seq<Event>, useDefault: bool, waiting: bool, dataAddr: Addr, defAddr: Addr) {
    && log != [] && log[0].NewSession? && Peer(log) == defAddr
    && (if useDefault then !log[|log| - 1].PortAccepted? else log[|log| - 1] == PortAccepted(dataAddr))
    && (!useDefault ==> dataAddr.ip == defAddr.ip) && waiting == Waiting(log)
    && Justified(log)
  }

  lemma PeerAppend(log: seq<Event>, e: Event)
    ensures Peer(log + [e]) == if e.NewSession? then e.peer else Peer(log)
  {
    assert (log + [e])[..|log|] == log;
  }

  lemma AddressedStep(log: seq<Event>, useDefault: bool, waiting: bool, dataAddr: Addr, defAddr: Addr, a: Addr)
    requires Addressed(log, useDefault, waiting, dataAddr, defAddr)
    ensures Addressed(log + [Reset], true, false, a, defAddr)
    ensures a.ip == defAddr.ip ==> Addressed(log + [PortAccepted(a)], false, false, a, defAddr)
    ensures waiting ==> Addressed(log + [PasvUsed], true, false, a, defAddr)
    ensures !waiting ==> Addressed(log + [Connected(if useDefault then defAddr else dataAddr)], true, false, a, defAddr)
    ensures !waiting ==> Addressed(log + [PasvAccepted], true, true, a, defAddr)
  {
    hide Justified;
    AddressedNext(log, defAddr, Reset);
    if a.ip == defAddr.ip {
      AddressedNext(log, defAddr, PortAccepted(a));
    }
    if waiting {
      AddressedNext(log, defAddr, PasvUsed);
    } else {
      AddressedNext(log, defAddr, Connected(if useDefault then defAddr else dataAddr));
      AddressedNext(log, defAddr, PasvAccepted);
    }
  }

  lemma AddressedNext(log: seq<Event>, peer: Addr, e: Event)
    requires log != [] && Peer(log) == peer && Justified(log) && Allowed(log, e) && !e.NewSession?
    ensures Peer(log + [e]) == peer && Justified(log + [e]) && (log + [e])[|log|] == e && (log + [e])[0] == log[0]
  {
    PeerAppend(log, e);
    JustifiedAppend(log, e);
  }

  lemma AddressedStart(log: seq<Event>, peer: Addr, a: Addr)
    requires Justified(log) && (log == [] || log[0].NewSession?)
    ensures Addressed(log + [NewSession(peer)], true, false, a, peer)
  {
    PeerAppend(log, NewSession(peer));
    JustifiedAppend(log, NewSession(peer));
  }

  lemma AddressedJustified(log: seq<Event>, useDefault: bool, waiting: bool, dataAddr: Addr, defAddr: Addr)
    requires Addressed(log, useDefault, waiting, dataAddr, defAddr)
    ensures Justified(log) && log != [] && log[0].NewSession?
  {
  }

  /** PORT is accepted: six numbers, each a byte, the first four of them the control peer's IP. */
  predicate PortMatches(fields: seq<nat>, ip: Ip) {
    && |fields| == 6 && (forall k :: 0 <= k < 6 ==> fields[k] <= 255)
    && fields[0] == ip.a && fields[1] == ip.b && fields[2] == ip.c && fields[3] == ip.d
  }

  // ------------------------------------------------------------- the session

  /** One command of the control connection, as far as sockets are concerned. */
  datatype Command =
    | Port(fields: seq<nat>)  // the numbers sscanf converted, in order
    | Pasv
    | Retr
    | Stor(devNull: bool)
    | List
    | Other

  /** How the control connection of one session is set up, and its commands until it ends. */
  datatype Script = Script(peer: Addr, self: Addr, fdopens: bool, getsockname: bool, commands: seq<Command>)

  /** How a command fared with its data connection. */
  datatype DataCall = NotAsked | Got | SocketFails | OptionFails | BindFails | ConnectFails

  /** The replies data_socket sends: one for each way to fail but that of setsockopt. */
  function Refusals(how: DataCall): nat {
    if how == SocketFails || how == BindFails || how == ConnectFails then 1 else 0
  }

  class Session {
    var ctrlAddr: Addr
    var dataAddr: Addr
    var defAddr: Addr
    var useDefault: bool
    var ctrlFp: bool
    var ctrlSocket: int
    var pasvSocket: int
    var dataSocket: int

    // As malloc leaves it: every field may hold anything.
    constructor (a: Addr, b: bool, s: int)
    {
      ctrlAddr, dataAddr, defAddr, useDefault, ctrlFp := a, a, a, b, b;
      ctrlSocket, pasvSocket, dataSocket := s, s, s;
    }

    /** The data descriptor: the data socket, or else the passive socket. */
    ghost function Live(): int
      reads this
    {
      if dataSocket >= 0 then dataSocket else pasvSocket
    }

    /** A passive connection that no transfer has taken yet. */
    ghost predicate PasvWaits()
      reads this
    {
      pasvSocket >= 0 && dataSocket == -1
    }

    /**
     At every point of a command: the two data sockets are one descriptor or one of them is none, the
     session names exactly its control stream, that descriptor and `fd`, and its addresses agree with
     the record.
     */
    ghost predicate Holds(sys: System, fd: int)
      reads this, sys
    {
      && ctrlFp && ctrlSocket >= 0 && dataSocket >= -1 && pasvSocket >= -1 && fd >= -1
      && (dataSocket == -1 || pasvSocket == -1 || dataSocket == pasvSocket)
      && sys.Valid() && sys.mine == Names(ctrlSocket, Live(), fd)
      && Addressed(sys.log, useDefault, PasvWaits(), dataAddr, defAddr)
    }

    /** Between commands there is no data socket and no file. */
    ghost predicate Ready(sys: System)
      reads this, sys
    {
      dataSocket == -1 && Holds(sys, -1)
    }

    method CloseSocket(sys: System, s: int)
      requires sys.Valid() && Name(s) <= sys.mine
      modifies sys`table, sys`steps, sys`acts, sys`others, sys`mine
      ensures sys.Valid() && sys.mine == old(sys.mine) - Name(s) && sys.acts == old(sys.acts) + Closed(s) && sys.Ran(0)
      ensures sys.quiet ==> sys.table == if s < 0 then old(sys.table) else CloseIn(old(sys.table), s)
    {
      if 0 <= s {
        assert s in Name(s);
        sys.Close(s);
      } else {
        assert sys.mine - multiset{} == sys.mine && sys.acts + [] == sys.acts;
      }
    }

    /** Open the data connection for a transfer; with it, the default address is in force again. */
    method DataSocket(sys: System, ghost fd: int) returns (s: int, ghost how: DataCall)
      requires Holds(sys, fd) && dataSocket == -1
      modifies this, sys
      ensures Holds(sys, fd) && s == dataSocket == Live() && useDefault
      ensures old(pasvSocket) >= 0 ==> s == old(pasvSocket)
      ensures pasvSocket == old(pasvSocket) && ctrlSocket == old(ctrlSocket)
      ensures how != NotAsked && (how == Got <==> s >= 0) && sys.finals == old(sys.finals) + Refusals(how)
      ensures sys.Ran(0)
    {
      hide Traced, Addressed, Names, Name, Mine;
      s, how := pasvSocket, Got;
      AddressedStep(sys.log, useDefault, PasvWaits(), dataAddr, defAddr, dataAddr);
      if 0 > s {
        s, how := ConnectToPeer(sys, fd);
      } else {
        sys.Record(PasvUsed);
        useDefault := true;
      }
      dataSocket := s;
      AddressedStep(sys.log, useDefault, false, dataAddr, defAddr, dataAddr);
      useDefault := true;
      sys.Record(Reset);
    }

    /** The active side: a socket bound to port 20 and connected to the address in force, or -1. */
    method ConnectToPeer(sys: System, ghost fd: int) returns (s: int, ghost how: DataCall)
      requires Holds(sys, fd) && dataSocket == pasvSocket == -1
      modifies sys, this`useDefault
      ensures s >= -1 && sys.Valid() && sys.mine == Names(ctrlSocket, s, fd) && sys.Ran(0)
      ensures Addressed(sys.log, useDefault, false, dataAddr, defAddr)
      ensures sys.log == old(sys.log) || sys.log == old(sys.log) + [Connected(if old(useDefault) then defAddr else dataAddr)]
      ensures how != NotAsked && (how == Got <==> s >= 0) && sys.finals == old(sys.finals) + Refusals(how)
    {
      hide Traced, Addressed, Names, Name, Mine;
      s := sys.Open();
      NamesOpened(ctrlSocket, -1, fd, s);
      if 0 > s {
        sys.Reply();
        return -1, SocketFails;
      }
      var result := Connect(sys, s);
      how := result;
      if result != Got {
        DropSocket(sys, s, fd);
        s := -1;
      }
    }

    /** What the active side does with its new socket: setsockopt, bind, connect. */
    method Connect(sys: System, s: int) returns (how: DataCall)
      requires sys.Valid() && s >= 0 && Addressed(sys.log, useDefault, false, dataAddr, defAddr)
      modifies sys`table, sys`steps, sys`others, sys`log, sys`finals, this`useDefault
      ensures sys.Valid() && sys.Ran(0) && Addressed(sys.log, useDefault, false, dataAddr, defAddr)
      ensures sys.log == old(sys.log) || sys.log == old(sys.log) + [Connected(if old(useDefault) then defAddr else dataAddr)]
      ensures how != NotAsked && how != SocketFails && sys.finals == old(sys.finals) + Refusals(how)
    {
      hide Traced, Addressed;
      var setsockopt: bool := *;
      if !setsockopt {
        return OptionFails;
      }
      var bound := BindWithRetries();
      if !bound {
        sys.Reply();
        return BindFails;
      }
      AddressedStep(sys.log, useDefault, false, dataAddr, defAddr, dataAddr);
      var connected := sys.Connect(if useDefault then defAddr else dataAddr);
      // The source sets this flag on the way out, whatever happened.
      useDefault := true;
      if !connected {
        sys.Reply();
        return ConnectFails;
      }
      return Got;
    }

    method DropSocket(sys: System, s: int, ghost fd: int)
      requires sys.Valid() && sys.mine == Names(ctrlSocket, s, fd)
      modifies sys`table, sys`steps, sys`acts, sys`others, sys`mine
      ensures sys.Valid() && sys.mine == Names(ctrlSocket, -1, fd) && sys.acts == old(sys.acts) + Closed(s) && sys.Ran(0)
      ensures sys.quiet ==> sys.table == if s < 0 then old(sys.table) else CloseIn(old(sys.table), s)
    {
      hide Traced, Names, Name, Mine, CloseIn;
      NamesClosed(ctrlSocket, s, fd);
      CloseSocket(sys, s);
    }

    /** Up to nine attempts to bind port 20, giving up at once on any error but an address in use. */
    method BindWithRetries() returns (bound: bool)
    {
      var tries := 1;
      while tries < 10
        invariant 1 <= tries
        decreases 10 - tries
      {
        var ok: bool := *;
        if ok {
          return true;
        }
        var inUse: bool := *;
        tries := if inUse then tries + 1 else 11;
      }
      return false;
    }

    /** open, creat or opendir within a command. */
    method OpenFile(sys: System) returns (fd: int)
      requires Holds(sys, -1)
      modifies sys`table, sys`steps, sys`acts, sys`others, sys`mine
      ensures Holds(sys, fd) && sys.acts == old(sys.acts) + Opened(fd) && sys.Ran(0)
      ensures sys.quiet && fd >= 0 ==> fd !in old(sys.table.owned) && sys.table == OpenIn(old(sys.table), fd)
    {
      hide Traced, Addressed, Names, Name, Mine;
      fd := sys.Open();
      NamesOpened(ctrlSocket, Live(), -1, fd);
    }

    method CloseFile(sys: System, fd: int)
      requires Holds(sys, fd)
      modifies sys`table, sys`steps, sys`acts, sys`others, sys`mine
      ensures Holds(sys, -1) && sys.acts == old(sys.acts) + Closed(fd) && sys.Ran(0)
      ensures sys.quiet && fd >= 0 ==> sys.table == CloseIn(old(sys.table), fd)
    {
      hide Traced, Addressed, Names, Name, Mine;
      NamesClosed(ctrlSocket, Live(), fd);
      CloseSocket(sys, fd);
    }

    /** Close whichever of the two data sockets there is; they are never two. */
    method CloseDataSocket(sys: System, ghost fd: int)
      requires Holds(sys, fd)
      modifies sys`table, sys`steps, sys`acts, sys`others, sys`mine, sys`log, this`dataSocket, this`pasvSocket, this`useDefault
      ensures Holds(sys, fd) && dataSocket == pasvSocket == -1 && useDefault && sys.Ran(0)
      ensures sys.acts == old(sys.acts) + Closed(old(Live()))
      ensures sys.quiet ==> sys.table == if old(Live()) < 0 then old(sys.table) else CloseIn(old(sys.table), old(Live()))
    {
      hide Traced, Addressed, Names, Name, Mine, CloseIn;
      var s := DataName();
      DropData(sys, s, fd);
      ResetData(sys, fd);
    }

    method DataName() returns (s: int)
      ensures s == Live()
    {
      s := dataSocket;
      if 0 > s {
        s := pasvSocket;
      }
    }

    method DropData(sys: System, s: int, ghost fd: int)
      requires Holds(sys, fd) && s == Live()
      modifies sys`table, sys`steps, sys`acts, sys`others, sys`mine
      ensures HoldsBut(sys, fd) && sys.acts == old(sys.acts) + Closed(s) && sys.Ran(0)
      ensures sys.quiet ==> sys.table == if s < 0 then old(sys.table) else CloseIn(old(sys.table), s)
    {
      hide Traced, Addressed, Names, Name, Mine, CloseIn;
      DropSocket(sys, s, fd);
    }

    /** As Holds, with the data descriptor closed and its fields not reset yet. */
    ghost predicate HoldsBut(sys: System, fd: int)
      reads this, sys
    {
      && ctrlFp && ctrlSocket >= 0 && fd >= -1 && sys.Valid() && sys.mine == Names(ctrlSocket, -1, fd)
      && Addressed(sys.log, useDefault, PasvWaits(), dataAddr, defAddr)
    }

    method ResetData(sys: System, ghost fd: int)
      requires HoldsBut(sys, fd)
      modifies sys`log, this`dataSocket, this`pasvSocket, this`useDefault
      ensures Holds(sys, fd) && dataSocket == pasvSocket == -1 && useDefault
    {
      hide Traced, Addressed, Names, Name, Mine;
      AddressedStep(sys.log, useDefault, PasvWaits(), dataAddr, defAddr, dataAddr);
      dataSocket := -1;
      pasvSocket := -1;
      useDefault := true;
      sys.Record(Reset);
    }

    method CloseStream(sys: System)
      requires sys.Valid() && sys.mine == Name(ctrlSocket)
      modifies this`ctrlFp, this`ctrlSocket, sys`table, sys`steps, sys`acts, sys`others, sys`mine
      ensures sys.Valid() && sys.mine == multiset{} && sys.Ran(0)
      ensures sys.quiet ==>
                sys.table == if old(ctrlSocket) < 0 then old(sys.table) else CloseIn(old(sys.table), old(ctrlSocket))
      ensures !ctrlFp && ctrlSocket == -1
    {
      assert Name(ctrlSocket) - Name(ctrlSocket) == multiset{} == Name(-1);
      hide Traced;
      if ctrlFp {
        CloseSocket(sys, ctrlSocket);  // fclose closes the descriptor below the stream
        ctrlSocket := -1;
      }
      CloseSocket(sys, ctrlSocket);
      ctrlFp := false;
      ctrlSocket := -1;
    }

    method CommandPort(sys: System, fields: seq<nat>)
      requires Ready(sys)
      modifies this, sys
      ensures Ready(sys) && pasvSocket == -1 && sys.Ran(0) && sys.finals == old(sys.finals) + 1
      ensures useDefault <==> !PortMatches(fields, defAddr.ip)
      ensures !useDefault ==> dataAddr == Addr(defAddr.ip, fields[4] * 256 + fields[5])
    {
      hide Traced, Addressed, Names, Name, Mine;
      CloseDataSocket(sys, -1);
      sys.Reply();
      if |fields| == 6 {
        var i := 0;
        while i < 6 && fields[i] <= 255
          invariant 0 <= i <= 6 && forall k :: 0 <= k < i ==> fields[k] <= 255
        {
          i := i + 1;
        }
        if i == 6 {
          var ip := Ip(fields[0], fields[1], fields[2], fields[3]);
          if ip == defAddr.ip {
            AddressedStep(sys.log, useDefault, false, dataAddr, defAddr, Addr(ip, fields[4] * 256 + fields[5]));
            dataAddr := Addr(ip, fields[4] * 256 + fields[5]);
            useDefault := false;
            sys.Record(PortAccepted(dataAddr));
          }
        }
      }
    }

    /**
     PASV: the accepted connection stays as the passive one, and the listening socket is closed; -1 stands for one
     that was not opened. A second final reply is sent exactly when the accept that follows the 227 fails.
     */
    method CommandPasv(sys: System) returns (ghost listens: bool, ghost listening: int, ghost accepted: int)
      requires Ready(sys)
      modifies this, sys
      ensures Ready(sys) && useDefault && sys.Ran(0) && pasvSocket == accepted
      ensures (listens ==> listening >= 0) && (accepted >= 0 ==> listens)
      ensures sys.acts == old(sys.acts) + Closed(old(pasvSocket)) + Opened(listening) + Opened(accepted) + Closed(listening)
      ensures sys.quiet && accepted >= 0 ==> accepted in sys.table.owned && listening !in sys.table.owned
      ensures sys.finals == old(sys.finals) + if listens && accepted < 0 then 2 else 1
    {
      hide Traced, Addressed, Names, Name, Mine, Opened, Closed;
      CloseDataSocket(sys, -1);
      listens := false;
      var s := OpenFile(sys);
      listening, accepted := s, -1;
      NoneOpened();
      assert sys.acts + Opened(-1) == sys.acts;
      if s >= 0 {
        // A failed bind or listen is only logged.
        var getsockname: bool := *;
        if getsockname {
          listens := true;
          sys.Reply();
          Accept(sys, s);
          accepted := pasvSocket;
        }
      }
      if pasvSocket < 0 {
        sys.Reply();
      }
      // On success and on failure alike, the listening socket is closed.
      CloseFile(sys, s);
    }

    /** The connection accepted on the listening socket becomes the passive one. */
    method Accept(sys: System, ghost s: int)
      requires Holds(sys, s) && dataSocket == pasvSocket == -1 && useDefault
      modifies sys`table, sys`steps, sys`acts, sys`others, sys`mine, sys`log, this`pasvSocket
      ensures Holds(sys, s) && sys.acts == old(sys.acts) + Opened(pasvSocket) && sys.Ran(0)
      ensures sys.quiet && pasvSocket >= 0 ==>
                pasvSocket !in old(sys.table.owned) && sys.table == OpenIn(old(sys.table), pasvSocket)
    {
      hide Traced, Addressed, Names, Name, Mine, Opened;
      pasvSocket := sys.Open();
      NamesOpened(ctrlSocket, -1, s, pasvSocket);
      AddressedStep(sys.log, useDefault, false, dataAddr, defAddr, dataAddr);
      if pasvSocket >= 0 {
        sys.Record(PasvAccepted);
      }
    }

    /**
     What a transfer command does to the data connection: if it asked for one, none is left and the
     default address is in force; if it did not get that far, a connection that waits and a PORT
     address stay.
     */
    twostate predicate Spent(how: DataCall)
      reads this
    {
      && dataSocket == -1 && ctrlSocket == old(ctrlSocket)
      && (if how != NotAsked then pasvSocket == -1 && useDefault
          else pasvSocket == old(pasvSocket) && useDefault == old(useDefault) && dataAddr == old(dataAddr))
    }

    /** RETR sends two final replies exactly when data_socket has sent one. */
    method CommandRetrieve(sys: System) returns (ghost how: DataCall)
      requires Ready(sys)
      modifies this, sys
      ensures Ready(sys) && sys.Ran(0) && Spent(how)
      ensures sys.finals == old(sys.finals) + 1 + Refusals(how)
    {
      hide Traced, Addressed, Names, Name, Mine;
      how := NotAsked;
      var allowed: bool := *;
      if !allowed {
        sys.Reply();
        return;
      }
      var fd := OpenFile(sys);
      if 0 > fd {
        sys.Reply();
        return;
      }
      var isDirectory: bool := *;
      if isDirectory {
        CloseFile(sys, fd);
        sys.Reply();
        return;
      }
      how := SendFile(sys, fd);
    }

    /** The rest of RETR, from the open file on. */
    method SendFile(sys: System, file: int) returns (ghost how: DataCall)
      requires Holds(sys, file) && dataSocket == -1 && file >= 0
      modifies this, sys
      ensures Ready(sys) && sys.Ran(0) && how != NotAsked
      ensures pasvSocket == -1 && useDefault && ctrlSocket == old(ctrlSocket)
      ensures sys.finals == old(sys.finals) + 1 + Refusals(how)
    {
      hide Traced, Addressed, Names, Name, Mine;
      var s, fd;
      s, how := DataSocket(sys, file);
      fd := file;
      if 0 <= s {
        var readToEnd: bool := *;
        if readToEnd {
          CloseFile(sys, fd);
          fd := -1;
        }
      }
      if -1 != fd {
        CloseFile(sys, fd);
      }
      sys.Reply();
      CloseDataSocket(sys, -1);
    }

    /**
     STOR, with the data descriptor it got; -1 if it did not get that far or got none. A store to
     /dev/null that got its data connection closes descriptor 0: another owner's, its own data
     connection, which is then closed a second time, or its own control connection. With no other
     session running, the descriptors are as they should be afterwards, and no close was stray,
     exactly if that did not happen. It ends without any final reply exactly when setsockopt fails.
     */
    method CommandStore(sys: System, devNull: bool) returns (ghost how: DataCall, ghost s: int)
      requires Ready(sys)
      modifies this, sys
      ensures Ready(sys) && Spent(how) && (how == Got <==> s >= 0)
      ensures sys.Ran(if devNull && s >= 0 then 1 else 0)
      ensures sys.finals == old(sys.finals) + if how == NotAsked || how == Got then 1 else Refusals(how)
      ensures sys.quiet && old(sys.Even()) ==>
                (sys.Even() && sys.table.strays == old(sys.table.strays) <==> !devNull || s < 0)
      ensures sys.quiet && old(sys.Even()) && devNull && s >= 0 ==>
                && sys.table.strays == old(sys.table.strays) + (if ctrlSocket == 0 || 0 in sys.others then 0 else 1)
                && (ctrlSocket in sys.table.owned <==> ctrlSocket != 0)
    {
      hide Traced, Addressed, Names, Name, Mine;
      EvenIff(sys);
      how, s := NotAsked, -1;
      var allowed: bool := *;
      if !allowed {
        sys.Reply();
        return;
      }
      var sock;
      sock, how := DataSocket(sys, -1);
      EvenIff(sys);
      s := sock;
      if 0 > sock {
        return;
      }
      sys.Reply();
      if devNull {
        StoreNull(sys);
      } else {
        StoreFile(sys);
      }
      EvenIff(sys);
    }

    /** The rest of a store to /dev/null, from the data connection on. */
    method StoreNull(sys: System)
      requires Holds(sys, -1) && dataSocket >= 0
      modifies sys`table, sys`steps, sys`acts, sys`others, sys`mine, sys`log, this`dataSocket, this`pasvSocket, this`useDefault
      ensures Ready(sys) && pasvSocket == -1 && useDefault && sys.Ran(1)
      ensures sys.acts == old(sys.acts) + [FtpDescriptors.Null(0)] + Closed(old(dataSocket))
      ensures sys.quiet && old(sys.Even()) ==>
                && sys.table.strays == old(sys.table.strays) + (if ctrlSocket == 0 || 0 in sys.others then 0 else 1)
                && (ctrlSocket in sys.table.owned <==> ctrlSocket != 0)
    {
      ghost var t, data := sys.table, dataSocket;
      if sys.Even() {
        assert Names(ctrlSocket, data, -1) == multiset{ctrlSocket as nat, data as nat};
        NullThenData(t, ctrlSocket, data, sys.others);
      }
      hide Traced, Addressed, Names, Name, NullIn, CloseIn;
      sys.CloseNull();
      CloseDataSocket(sys, -1);
    }

    /** The rest of a store to a file or a hook, from the data connection on. */
    method StoreFile(sys: System)
      requires Holds(sys, -1) && dataSocket >= 0
      modifies sys`table, sys`steps, sys`acts, sys`others, sys`mine, sys`log, this`dataSocket, this`pasvSocket, this`useDefault
      ensures Ready(sys) && pasvSocket == -1 && useDefault && sys.Ran(0)
    {
      hide Traced, Addressed, Names, Name, Mine;
      var hook: bool := *;
      if !hook {
        var fd := OpenFile(sys);
        if 0 <= fd {
          CloseFile(sys, fd);
        }
      }
      CloseDataSocket(sys, -1);
    }

    /** LIST, like STOR, ends without any final reply exactly when setsockopt fails. */
    method CommandList(sys: System) returns (ghost how: DataCall)
      requires Ready(sys)
      modifies this, sys
      ensures Ready(sys) && sys.Ran(0) && Spent(how)
      ensures sys.finals == old(sys.finals) + if how == NotAsked || how == Got then 1 else Refusals(how)
    {
      hide Traced, Addressed, Names, Name, Mine;
      how := NotAsked;
      var auth: bool := *;
      if !auth {
        sys.Reply();
        return;
      }
      var s;
      s, how := DataSocket(sys, -1);
      if 0 > s {
        return;
      }
      var dirp := OpenFile(sys);
      if 0 <= dirp {
        CloseFile(sys, dirp);
      }
      CloseDataSocket(sys, -1);
      sys.Reply();
    }
  }

  /** An entry in the pool: it names nothing, and its record is justified so far. */
  ghost predicate InPool(sys: System)
    reads sys
  {
    sys.Valid() && sys.mine == multiset{} && Justified(sys.log) && (sys.log == [] || sys.log[0].NewSession?)
  }

  /** The daemon's part: set up an entry for a new control connection, or give it back. */
  method StartSession(sys: System, info: Session, script: Script) returns (started: bool)
    requires InPool(sys)
    modifies sys, info
    ensures sys.Ran(0)
    ensures started ==> info.Ready(sys) && info.defAddr == script.peer && sys.mine == Name(info.ctrlSocket)
    ensures started ==> info.ctrlAddr == script.self
    ensures !started ==> InPool(sys) && sys.log == old(sys.log)
  {
    hide Justified, Traced, Addressed, Names;
    var ss := sys.Open();
    assert multiset{} + Name(ss) == Name(ss);
    hide Name;
    if 0 > ss {
      return false;
    }
    info.ctrlSocket := ss;
    info.ctrlFp := script.fdopens;
    if !info.ctrlFp {
      info.CloseStream(sys);
      return false;
    }
    info.defAddr := script.peer;
    if !script.getsockname {
      info.CloseStream(sys);
      return false;
    }
    SetUp(sys, info, script);
    return true;
  }

  /** Initialize the entry for its new control connection. */
  method SetUp(sys: System, info: Session, script: Script)
    requires sys.Valid() && sys.mine == Name(info.ctrlSocket) && info.ctrlSocket >= 0 && info.ctrlFp
    requires Justified(sys.log) && (sys.log == [] || sys.log[0].NewSession?) && info.defAddr == script.peer
    modifies info`useDefault, info`ctrlAddr, info`pasvSocket, info`dataSocket, info`dataAddr, sys`log
    ensures info.Ready(sys) && info.ctrlAddr == script.self
  {
    hide Justified, Traced, Addressed, Names, Name;
    info.useDefault := true;
    info.ctrlAddr := script.self;
    info.pasvSocket := -1;
    info.dataSocket := -1;
    info.dataAddr := info.dataAddr.(port := (info.ctrlAddr.port + 0xFFFF) % 0x1_0000);
    NamesClosed(info.ctrlSocket, -1, -1);
    AddressedStart(sys.log, script.peer, info.dataAddr);
    sys.Record(NewSession(script.peer));
  }

  method Execute(sys: System, info: Session, command: Command)
    requires info.Ready(sys)
    modifies sys, info
    ensures info.Ready(sys) && Grown(sys, if command == Stor(true) then 1 else 0)
  {
    hide Traced, Addressed, Names, Name, Mine;
    match command {
      case Port(fields) => info.CommandPort(sys, fields);
      case Pasv => ghost var listens, l, a := info.CommandPasv(sys);
      case Retr => ghost var how := info.CommandRetrieve(sys);
      case Stor(devNull) => ghost var how, s := info.CommandStore(sys, devNull);
      case List => ghost var how := info.CommandList(sys);
      case Other =>
    }
  }

  /** What a run did to the counts, at most `nulls` stores to /dev/null being its own. */
  twostate predicate Grown(sys: System, nulls: nat)
    reads sys
  {
    && sys.table.strays >= old(sys.table.strays) && sys.table.nulls >= old(sys.table.nulls)
    && (sys.quiet ==> sys.others == old(sys.others) && sys.table.nulls <= old(sys.table.nulls) + nulls)
  }

  /** How many of the commands store to /dev/null. */
  function NullStores(commands: seq<Command>): nat {
    if commands == [] then 0
    else NullStores(commands[..|commands| - 1]) + if commands[|commands| - 1] == Stor(true) then 1 else 0
  }

  lemma NullStoresStep(commands: seq<Command>, i: nat)
    requires i < |commands|
    ensures NullStores(commands[..i + 1]) == NullStores(commands[..i]) + if commands[i] == Stor(true) then 1 else 0
  {
    assert commands[..i + 1][..i] == commands[..i];
  }

  /** One session on an entry, from accept to task_pool_release, while others run. */
  method Serve(sys: System, info: Session, script: Script)
    requires InPool(sys)
    modifies sys, info
    ensures InPool(sys) && Grown(sys, NullStores(script.commands))
  {
    hide InPool, Justified, NullStores;
    var started := StartSession(sys, info, script);
    if !started {
      return;
    }
    RunCommands(sys, info, script.commands);
    EndSession(sys, info);
  }

  method RunCommands(sys: System, info: Session, commands: seq<Command>)
    requires info.Ready(sys)
    modifies sys, info
    ensures info.Ready(sys) && Grown(sys, NullStores(commands))
  {
    hide NullStores, Traced, Addressed, Names, Name;
    assert commands[..0] == [];
    for i := 0 to |commands|
      invariant info.Ready(sys) && Grown(sys, NullStores(commands[..i]))
    {
      NullStoresStep(commands, i);
      Execute(sys, info, commands[i]);
    }
    assert commands[..|commands|] == commands;
  }

  method EndSession(sys: System, info: Session)
    requires info.Ready(sys)
    modifies sys, info
    ensures InPool(sys) && sys.Ran(0)
  {
    hide Traced, Addressed, Names, Name, Justified;
    info.CloseDataSocket(sys, -1);
    NamesClosed(info.ctrlSocket, -1, -1);
    AddressedJustified(sys.log, info.useDefault, false, info.dataAddr, info.defAddr);
    info.CloseStream(sys);
  }

  /** How many commands of all the sessions store to /dev/null. */
  function AllNullStores(scripts: seq<Script>): nat {
    if scripts == [] then 0
    else AllNullStores(scripts[..|scripts| - 1]) + NullStores(scripts[|scripts| - 1].commands)
  }

  lemma AllNullStoresStep(scripts: seq<Script>, i: nat)
    requires i < |scripts|
    ensures AllNullStores(scripts[..i + 1]) == AllNullStores(scripts[..i]) + NullStores(scripts[i].commands)
  {
    assert scripts[..i + 1][..i] == scripts[..i];
  }

  /**
   Any number of sessions on one entry, whatever the system calls return and whatever other sessions do
   meanwhile: at the end the entry names nothing, every connection it made is justified, and the
   account of the table is kept. If no other session names a descriptor either, nothing is open,
   every descriptor opened was closed, and the stray closes are exactly as many as the stores to
   /dev/null of all sessions; if no other session ran, these are stores of this entry.
   */
  method ServeAll(sys: System, scripts: seq<Script>, info: Session)
    requires InPool(sys)
    modifies sys, info
    ensures InPool(sys) && Grown(sys, AllNullStores(scripts)) && Kept(sys.table, sys.others)
    ensures sys.others == multiset{} ==>
              sys.table.owned == {} && sys.table.opens == sys.table.closes && sys.table.strays == Nulls(sys.steps)
  {
    hide InPool, Traced, Kept, AllNullStores, NullStores;
    assert scripts[..0] == [];
    for i := 0 to |scripts|
      invariant InPool(sys) && Grown(sys, AllNullStores(scripts[..i]))
    {
      AllNullStoresStep(scripts, i);
      Serve(sys, info, scripts[i]);
    }
    assert scripts[..|scripts|] == scripts;
    PoolAccount(sys);
  }

  lemma PoolAccount(sys: System)
    requires InPool(sys)
    ensures Kept(sys.table, sys.others)
    ensures sys.others == multiset{} ==>
              sys.table.owned == {} && sys.table.opens == sys.table.closes && sys.table.strays == Nulls(sys.steps)
  {
    TracedKept(sys.steps, sys.table, sys.mine, sys.others);
    assert sys.mine + sys.others == sys.others;
    assert sys.others == multiset{} ==> forall n :: n in sys.table.owned ==> n in multiset{};
  }
}
