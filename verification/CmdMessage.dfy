/** The message descriptor: protocol headers are taken off the front of a request and put back on the response
    built in the same buffer (core/cmd_interface/cmd_interface.c). */
module CmdMessages {
  import opened Bytes

  /** payload is the distance from the start of the data buffer to the payload. */
  datatype Descriptor = Descriptor(payload: nat, length: nat, payloadLength: nat, maxResponse: nat)

  function RemoveHeader(d: Descriptor, headerLength: nat): Descriptor {
    var k := Min(headerLength, d.payloadLength);
    d.(payload := d.payload + k, payloadLength := d.payloadLength - k)
  }

  /** The overall length follows the payload length only while the two are the same. */
  function AddHeader(d: Descriptor, headerLength: nat): Descriptor {
    var k := Min(headerLength, d.payload);
    d.(payload := d.payload - k,
       length := if d.length == d.payloadLength then d.length + k else d.length,
       payloadLength := d.payloadLength + k)
  }

  function SetPayloadLength(d: Descriptor, n: nat): Descriptor {
    d.(length := n, payloadLength := n)
  }

  /** cmd_interface_msg_get_max_response. */
  function MaxResponse(d: Descriptor): nat {
    if d.maxResponse >= d.payload then d.maxResponse - d.payload else 0
  }

  /** cmd_interface_msg_set_max_response, with the header length added in size_t. */
  function SetMaxResponse(d: Descriptor, max: size_t): Descriptor
    requires d.payload < SIZE_MOD
  {
    var total := SizeAdd(max, d.payload);
    if total < d.maxResponse then d.(maxResponse := total) else d
  }

  // Stacks of headers

  function Total(hs: seq<nat>): nat {
    if hs == [] then 0 else hs[0] + Total(hs[1..])
  }

  /** Take headers off, outermost first. */
  function RemoveAll(d: Descriptor, hs: seq<nat>): Descriptor
    decreases |hs|
  {
    if hs == [] then d else RemoveAll(RemoveHeader(d, hs[0]), hs[1..])
  }

  /** Put them back in the reverse order. */
  function AddAll(d: Descriptor, hs: seq<nat>): Descriptor
    decreases |hs|
  {
    if hs == [] then d else AddHeader(AddAll(d, hs[1..]), hs[0])
  }

  lemma {:induction false} RemovedAre(d: Descriptor, hs: seq<nat>)
    requires Total(hs) <= d.payloadLength
    ensures RemoveAll(d, hs)
            == d.(payload := d.payload + Total(hs), payloadLength := d.payloadLength - Total(hs))
    decreases |hs|
  {
    if hs != [] {
      RemovedAre(RemoveHeader(d, hs[0]), hs[1..]);
    }
  }

  /** Some outermost headers, the last of them not empty, make up exactly what the length is short of the payload
      length. */
  predicate LengthsMeet(d: Descriptor, hs: seq<nat>)
    decreases |hs|
  {
    hs != [] && (LengthsMeet(RemoveHeader(d, hs[0]), hs[1..]) || (hs[0] > 0 && d.length + hs[0] == d.payloadLength))
  }

  /** Whatever the stack, putting headers back gives the payload back; the overall length also comes back, unless the
      two lengths met on the way, and then it ends up equal to the payload length. */
  lemma {:induction false} PutBack(d: Descriptor, hs: seq<nat>)
    requires Total(hs) <= d.payloadLength
    ensures AddAll(RemoveAll(d, hs), hs)
            == d.(length := if LengthsMeet(d, hs) then d.payloadLength else d.length)
    decreases |hs|
  {
    if hs != [] {
      var d1 := RemoveHeader(d, hs[0]);
      PutBack(d1, hs[1..]);
      MeetMeans(d1, hs[1..]);
    }
  }

  /** The lengths can only meet if the overall length is the smaller one. */
  lemma {:induction false} MeetMeans(d: Descriptor, hs: seq<nat>)
    requires Total(hs) <= d.payloadLength
    ensures LengthsMeet(d, hs) ==> d.length < d.payloadLength
    decreases |hs|
  {
    if hs != [] {
      MeetMeans(RemoveHeader(d, hs[0]), hs[1..]);
    }
  }

  /** Removing any stack of headers that fit and adding them back in reverse restores the descriptor exactly, if and
      only if the lengths do not meet on the way; a length that is not smaller than the payload length is enough. */
  lemma RestoredExactly(d: Descriptor, hs: seq<nat>)
    requires Total(hs) <= d.payloadLength
    ensures AddAll(RemoveAll(d, hs), hs) == d <==> !LengthsMeet(d, hs)
    ensures d.length >= d.payloadLength ==> AddAll(RemoveAll(d, hs), hs) == d
  {
    PutBack(d, hs);
    MeetMeans(d, hs);
  }

  /** Lengths that do meet: a message one byte shorter than its payload, under a header of one byte. */
  lemma LengthsCanMeet()
    ensures var d := Descriptor(0, 0, 1, 1);
            LengthsMeet(d, [1]) && AddAll(RemoveAll(d, [1]), [1]) != d
  {
    var d := Descriptor(0, 0, 1, 1);
    assert [1][1..] == [];
    RestoredExactly(d, [1]);
  }

  lemma {:induction false} AddedAre(d: Descriptor, hs: seq<nat>)
    requires Total(hs) <= d.payload && d.length == d.payloadLength
    ensures AddAll(d, hs) == d.(payload := d.payload - Total(hs), length := d.length + Total(hs),
                                payloadLength := d.payloadLength + Total(hs))
    decreases |hs|
  {
    if hs != [] {
      AddedAre(d, hs[1..]);
    }
  }

  /** Building a response of n bytes under a stack of headers: afterwards the payload is back where the message
      began, both lengths are the payload plus the headers, and they stay within the maximum if and only if the
      maximum has room for the headers. */
  lemma ResponseFits(d: Descriptor, hs: seq<nat>, n: nat)
    requires d.payload == 0 && Total(hs) <= d.payloadLength
    requires n <= MaxResponse(RemoveAll(d, hs))
    ensures var r := AddAll(SetPayloadLength(RemoveAll(d, hs), n), hs);
            && r == Descriptor(0, n + Total(hs), n + Total(hs), d.maxResponse)
            && (r.length <= r.maxResponse <==> Total(hs) <= d.maxResponse)
  {
    RemovedAre(d, hs);
    AddedAre(SetPayloadLength(RemoveAll(d, hs), n), hs);
  }

  /** The maximum that is reported is exact: a payload stays within the maximum of the whole message, headers included,
      if and only if it is no longer than that. */
  lemma MaxResponseIsExact(d: Descriptor, hs: seq<nat>, n: nat)
    requires d.payload == 0 && Total(hs) <= d.payloadLength && Total(hs) <= d.maxResponse
    ensures AddAll(SetPayloadLength(RemoveAll(d, hs), n), hs).length <= d.maxResponse
            <==> n <= MaxResponse(RemoveAll(d, hs))
  {
    RemovedAre(d, hs);
    AddedAre(SetPayloadLength(RemoveAll(d, hs), n), hs);
  }

  /** Without room for the headers, nothing is left for a payload. */
  lemma NoRoomForHeaders(d: Descriptor, hs: seq<nat>)
    requires d.payload == 0 && Total(hs) <= d.payloadLength && Total(hs) >= d.maxResponse
    ensures MaxResponse(RemoveAll(d, hs)) == 0
  {
    RemovedAre(d, hs);
  }

  /** A header longer than what is left is clamped: it moves the payload to the end, or back to the start. */
  lemma LongHeadersAreClamped(d: Descriptor, n: nat)
    ensures n >= d.payloadLength ==>
              RemoveHeader(d, n) == d.(payload := d.payload + d.payloadLength, payloadLength := 0)
    ensures n >= d.payload ==>
              var r := AddHeader(d, n);
              r.payload == 0 && r.payloadLength == d.payloadLength + d.payload && r.maxResponse == d.maxResponse
  {
  }

  /** The new maximum is the smaller one, unless adding the headers to it overflows. */
  lemma SetMaxResponseMeans(d: Descriptor, max: size_t)
    requires d.payload <= d.maxResponse < SIZE_MOD
    ensures MaxResponse(SetMaxResponse(d, max)) == Min(MaxResponse(d), max)
            <==> max + d.payload < SIZE_MOD || MaxResponse(d) == 0
  {
  }

  /** The descriptor as it is updated in place. */
  class CmdMessage {
    var data: array<byte>
    var payload: nat
    var length: nat
    var payloadLength: nat
    var maxResponse: nat

    function View(): Descriptor
      reads this
    {
      Descriptor(payload, length, payloadLength, maxResponse)
    }

    /** cmd_interface_msg_new_message on a buffer. */
    constructor (buffer: array<byte>, maxResponse: nat)
      ensures data == buffer && View() == Descriptor(0, 0, 0, maxResponse)
    {
      data, payload, length, payloadLength, this.maxResponse := buffer, 0, 0, 0, maxResponse;
    }

    /** cmd_interface_msg_add_payload_data; the caller has checked that the data fits. */
    method AddPayloadData(bytes: seq<byte>)
      requires payload + payloadLength + |bytes| <= data.Length
      modifies this, data
      ensures data == old(data)
      ensures View() == old(View()).(length := old(length) + |bytes|, payloadLength := old(payloadLength) + |bytes|)
      ensures data[..] == Splice(old(data[..]), payload + old(payloadLength), bytes)
    {
      CopyInto(data, payload + payloadLength, bytes);
      length := length + |bytes|;
      payloadLength := payloadLength + |bytes|;
    }

    method RemoveProtocolHeader(headerLength: nat)
      modifies this`payload, this`payloadLength
      ensures View() == RemoveHeader(old(View()), headerLength)
    {
      var n := headerLength;
      if n > payloadLength {
        n := payloadLength;
      }
      payload := payload + n;
      payloadLength := payloadLength - n;
    }

    method AddProtocolHeader(headerLength: nat)
      modifies this`payload, this`length, this`payloadLength
      ensures View() == AddHeader(old(View()), headerLength)
    {
      var n := headerLength;
      var hdrSpace := payload;
      if hdrSpace < n {
        n := hdrSpace;
      }
      payload := payload - n;
      if length == payloadLength {
        length := length + n;
      }
      payloadLength := payloadLength + n;
    }

    method SetMessagePayloadLength(n: nat)
      modifies this`length, this`payloadLength
      ensures View() == SetPayloadLength(old(View()), n)
    {
      length := n;
      payloadLength := n;
    }

    method GetMaxResponse() returns (n: nat)
      ensures n == MaxResponse(View())
    {
      n := payload;
      if maxResponse >= n {
        n := maxResponse - n;
      } else {
        n := 0;
      }
    }

    method SetMaximumResponse(max: size_t)
      requires payload < SIZE_MOD
      modifies this`maxResponse
      ensures View() == SetMaxResponse(old(View()), max)
    {
      var total := SizeAdd(max, payload);
      if total < maxResponse {
        maxResponse := total;
      }
    }
  }
}
