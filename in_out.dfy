/**
  The IN_AND_OUT field of the union of the project area boundary with the
  ring buffered around it.
 */
module InOut {
  import opened Wrappers

  /**
    Classifies one union piece by its `FID_BufferPAB` value: -1 (the piece
    is not part of the buffer) is inside, an object id of 1 or more is
    outside, and anything else gets no value.
   */
  function Classify(fid: int): (r: Option<string>)
    ensures r == Some("IN") <==> fid == -1
    ensures r == Some("OUT") <==> fid >= 1
    ensures r == None <==> fid != -1 && fid < 1
  {
    if fid == -1 then Some("IN")
    else if fid >= 1 then Some("OUT")
    else None
  }
}
