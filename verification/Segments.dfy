/** The messages that the two TCP endpoints exchange; of resets, only the receiver's are modelled. */
module Segments {
  import opened MachineInts

  datatype Option<T> = None | Some(value: T)

  datatype SenderMessage = SenderMessage(seqno: u32, syn: bool, payload: seq<byte>, fin: bool) {
    function SequenceLength(): nat {
      (if syn then 1 else 0) + |payload| + (if fin then 1 else 0)
    }
  }

  datatype ReceiverMessage = ReceiverMessage(ackno: Option<u32>, windowSize: u16, rst: bool)
}
