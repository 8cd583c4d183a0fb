/** The sending side of examples/tcp/tcp-large-transfer.cc: a write loop that is resumed by
    callbacks and copes with partial and refused sends.
 */
module TcpLargeTransfer {

  const WRITE_SIZE: nat := 1040
  const TOTAL_TX_BYTES: nat := 2000000

  /** The byte stream that is meant to arrive: the alphabet, over and over. */
  function Payload(n: nat): (bytes: seq<nat>)
    ensures |bytes| == n
  {
    seq(n, k => 97 + k % 26)
  }

  /** What is assumed of the socket: Send refuses, or takes a part of what it is offered that is
      not empty; the free space in its buffer changes in any way. */
  class Socket {
    var accepted: seq<nat>
    var txAvailable: nat
    var closed: bool
    ghost var refusals: nat

    constructor ()
      ensures accepted == [] && !closed
    {
      accepted, txAvailable, closed, refusals := [], 0, false, 0;
    }

    method GetTxAvailable() returns (n: nat)
      ensures n == txAvailable
    {
      n := txAvailable;
    }

    method Send(data: array<nat>, offset: nat, size: nat) returns (amount: int)
      requires 0 < size && offset + size <= data.Length
      modifies this`accepted, this`txAvailable, this`refusals
      ensures amount < 0 ==> accepted == old(accepted) && refusals == old(refusals) + 1
      ensures amount >= 0 ==> 0 < amount <= size && accepted == old(accepted) + data[offset..offset + amount]
                              && refusals == old(refusals)
    {
      var space: nat :| space >= 0;
      txAvailable := space;
      var taken: nat :| 0 <= taken <= size;
      amount := if taken == 0 then -1 else taken;
      if amount > 0 {
        accepted := accepted + data[offset..offset + amount];
      } else {
        refusals := refusals + 1;
      }
    }

    method Close()
      modifies this`closed
      ensures closed
    {
      closed := true;
    }
  }

  class Sender {
    const socket: Socket
    const data: array<nat>
    var currentTxBytes: nat

    /** What holds before and after every callback: the socket has been handed exactly the
        first bytes of the payload, and it is closed only when all of them are. */
    ghost predicate Valid()
      reads this, socket, data
    {
      && data[..] == Payload(WRITE_SIZE)
      && currentTxBytes <= TOTAL_TX_BYTES
      && socket.accepted == Payload(currentTxBytes)
      && (socket.closed ==> currentTxBytes == TOTAL_TX_BYTES)
    }

    /** Fills the transmit buffer. */
    constructor (socket: Socket)
      requires socket.accepted == [] && !socket.closed
      ensures Valid() && this.socket == socket && fresh(data) && data.Length == 1040 && currentTxBytes == 0
    {
      this.socket := socket;
      currentTxBytes := 0;
      var buffer := new nat[WRITE_SIZE];
      for i := 0 to WRITE_SIZE
        invariant forall k :: 0 <= k < i ==> buffer[k] == 97 + k % 26
      {
        buffer[i] := 97 + i % 26;
      }
      data := buffer;
    }

    /** The send callback. It returns when everything has been handed over, and then closes the
        socket, or when the socket has no space or refuses. */
    method WriteUntilBufferFull(txSpace: nat)
      requires Valid()
      modifies this`currentTxBytes, socket
      ensures Valid()
      ensures currentTxBytes >= old(currentTxBytes)
      ensures currentTxBytes == TOTAL_TX_BYTES <==> socket.closed
      ensures forall k :: 0 <= k < |socket.accepted| ==> socket.accepted[k] == 'a' as int + k % 26
      ensures socket.closed <==> |socket.accepted| == 2000000
      ensures currentTxBytes < TOTAL_TX_BYTES ==> socket.txAvailable == 0 || socket.refusals > old(socket.refusals)
      ensures socket.refusals >= old(socket.refusals)
      ensures old(socket.txAvailable) > 0 && socket.refusals == old(socket.refusals) ==>
        currentTxBytes > old(currentTxBytes) || currentTxBytes == TOTAL_TX_BYTES
    {
      var available := socket.GetTxAvailable();
      while currentTxBytes < TOTAL_TX_BYTES && available > 0
        invariant Valid() && available == socket.txAvailable
        invariant currentTxBytes >= old(currentTxBytes) && socket.refusals == old(socket.refusals)
        invariant available == old(socket.txAvailable) || currentTxBytes > old(currentTxBytes)
        decreases TOTAL_TX_BYTES - currentTxBytes
      {
        var left := TOTAL_TX_BYTES - currentTxBytes;
        var dataOffset := currentTxBytes % WRITE_SIZE;
        var toWrite := WRITE_SIZE - dataOffset;
        toWrite := if left < toWrite then left else toWrite;
        toWrite := if available < toWrite then available else toWrite;
        var amountSent := socket.Send(data, dataOffset, toWrite);
        if amountSent < 0 {
          return;
        }
        PayloadContinues(currentTxBytes, amountSent);
        currentTxBytes := currentTxBytes + amountSent;
        available := socket.GetTxAvailable();
      }
      if currentTxBytes >= TOTAL_TX_BYTES {
        socket.Close();
      }
    }

    /** One callback for each of `spaces`, the free space that it finds. Each one with free space
        that is not refused makes progress, so TOTAL_TX_BYTES of them close the socket. */
    method Run(spaces: seq<nat>)
      requires Valid()
      modifies this`currentTxBytes, socket
      ensures Valid()
      ensures var useful := WithSpace(spaces) - (socket.refusals - old(socket.refusals));
        && (currentTxBytes >= old(currentTxBytes) + useful || currentTxBytes == TOTAL_TX_BYTES)
        && (useful >= TOTAL_TX_BYTES ==> socket.closed)
    {
      for i := 0 to |spaces|
        invariant Valid() && socket.refusals >= old(socket.refusals) && currentTxBytes >= old(currentTxBytes)
        invariant i > 0 ==> (socket.closed <==> currentTxBytes == TOTAL_TX_BYTES)
        invariant currentTxBytes == TOTAL_TX_BYTES
          || currentTxBytes >= old(currentTxBytes) + WithSpace(spaces[..i]) - (socket.refusals - old(socket.refusals))
      {
        assert spaces[..i + 1][..i] == spaces[..i];
        socket.txAvailable := spaces[i];
        WriteUntilBufferFull(socket.txAvailable);
      }
      assert spaces[..|spaces|] == spaces;
    }
  }

  /** How many callbacks find free space. */
  function WithSpace(spaces: seq<nat>): nat {
    if spaces == [] then 0
    else WithSpace(spaces[..|spaces| - 1]) + (if spaces[|spaces| - 1] > 0 then 1 else 0)
  }

  /** The slice of the buffer at the current position is what comes next in the payload: 26
      divides the size of the buffer. */
  lemma PayloadContinues(sent: nat, amount: nat)
    requires sent % WRITE_SIZE + amount <= WRITE_SIZE
    ensures Payload(sent) + Payload(WRITE_SIZE)[sent % WRITE_SIZE..sent % WRITE_SIZE + amount] == Payload(sent + amount)
  {
    var offset := sent % WRITE_SIZE;
    var slice, all := Payload(WRITE_SIZE)[offset..offset + amount], Payload(sent + amount);
    forall k | 0 <= k < amount ensures slice[k] == all[sent + k] {
      SameLetter(sent, k);
    }
    assert all[..sent] == Payload(sent) && all[sent..] == slice;
  }

  lemma SameLetter(sent: nat, k: nat)
    ensures (sent % WRITE_SIZE + k) % 26 == (sent + k) % 26
  {
    var rounds := sent / WRITE_SIZE;
    assert sent + k == (sent % WRITE_SIZE + k) + 26 * (40 * rounds);
    AddRounds(sent % WRITE_SIZE + k, 40 * rounds);
  }

  lemma {:induction false} AddRounds(a: nat, rounds: nat)
    ensures (a + 26 * rounds) % 26 == a % 26
  {
    if rounds == 0 {
    } else {
      AddRounds(a, rounds - 1);
    }
  }
}
