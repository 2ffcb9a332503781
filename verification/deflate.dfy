/** The state guards of `Deflator` and `Inflator` in src/deflate.cpp, and the `windowBits`
    value each hands to zlib. zlib itself is not part of this model: the result of its init call
    is a parameter, and the compression loop `flate` is left out. */
module Deflate {
  import opened Wrappers

  datatype Mode = Zlib | Raw | Gzip

  datatype State = Start | Ready | Ended

  /** Which of the two classes: they differ in the lowest window size they accept and in the
      words of their messages. */
  datatype Kind = Deflator | Inflator

  /** zlib's `Z_OK`. */
  const ZOk: int := 0

  function ClassName(k: Kind): string {
    match k
    case Deflator => "Deflator"
    case Inflator => "Inflator"
  }

  /** The smallest `windowBits` `init` accepts: 9 for a deflator, 8 for an inflator. */
  function MinWindowBits(k: Kind): (m: int)
    ensures 8 <= m <= 9 && (m == 8 <==> k == Inflator)
  {
    match k
    case Deflator => 9
    case Inflator => 8
  }

  /** The `windowBits` zlib is given: negated for a raw stream, plus 16 for gzip, as is for
      zlib framing. */
  function ZlibWindowBits(mode: Mode, windowBits: int): (w: int)
    ensures mode == Raw ==> w == -windowBits
    ensures mode == Gzip ==> w == windowBits + 16
    ensures mode == Zlib ==> w == windowBits
  {
    match mode
    case Raw => -windowBits
    case Gzip => windowBits + 16
    case Zlib => windowBits
  }

  /** How zlib reads the value back: a negative value means raw, one above 15 gzip. */
  function ZlibFraming(w: int): (Mode, int) {
    if w < 0 then (Raw, -w) else if w > 15 then (Gzip, w - 16) else (Zlib, w)
  }

  /** Over the sizes `init` accepts, the three framings use disjoint values, so zlib recovers
      both the framing and the window size from the one number. */
  lemma {:induction false} FramingReadsBack(mode: Mode, windowBits: int)
    requires 8 <= windowBits <= 15
    ensures ZlibFraming(ZlibWindowBits(mode, windowBits)) == (mode, windowBits)
  {
  }

  /** What a call returns: a value, or the message of the `std::runtime_error` it throws. */
  datatype Outcome = Returned(state: State, result: int) | Threw(message: string)

  /** `init`. `zlibInit` stands for `deflateInit2` or `inflateInit2`, applied to the window
      size zlib is given. The inflator's range message says 9 although it accepts 8. */
  function Init(k: Kind, state: State, mode: Mode, windowBits: int, zlibInit: int -> int)
    : (r: Outcome)
    ensures state != Start ==> r == Threw(ClassName(k) + ".init() was called twice")
    ensures state == Start && !(MinWindowBits(k) <= windowBits <= 15)
            ==> r == Threw(ClassName(k) + ".init() expects 9 <= windowBits <= 15")
    ensures r.Returned? <==> state == Start && MinWindowBits(k) <= windowBits <= 15
    ensures r.Returned? ==> r.result == zlibInit(ZlibWindowBits(mode, windowBits))
    ensures r.Returned? ==> (r.state == Ready <==> r.result == ZOk)
    ensures r.Returned? && r.result != ZOk ==> r.state == Start
  {
    if state != Start then Threw(ClassName(k) + ".init() was called twice")
    else if windowBits < MinWindowBits(k) || windowBits > 15 then
      Threw(ClassName(k) + ".init() expects 9 <= windowBits <= 15")
    else
      var result := zlibInit(ZlibWindowBits(mode, windowBits));
      Returned(if result == ZOk then Ready else Start, result)
  }

  /** A failed zlib init leaves the object in `Start`, so `init` may be called again; a
      successful one makes every later `init` throw. */
  lemma {:induction false} InitOnce(k: Kind, mode: Mode, windowBits: int, zlibInit: int -> int, mode2: Mode,
                 windowBits2: int, zlibInit2: int -> int)
    requires Init(k, Start, mode, windowBits, zlibInit).Returned?
    ensures var first := Init(k, Start, mode, windowBits, zlibInit);
            Init(k, first.state, mode2, windowBits2, zlibInit2).Threw? <==>
              (first.result == ZOk || !(MinWindowBits(k) <= windowBits2 <= 15))
  {
  }

  /** `deflate` / `inflate`: only a `Ready` object reaches zlib. `flate` stands for what the
      compression loop returns; the messages name `deflate()` in both classes. */
  function Flate(k: Kind, state: State, flate: int): (r: Outcome)
    ensures r.Returned? <==> state == Ready
    ensures r.Returned? ==> r == Returned(Ready, flate)
    ensures r.Threw? ==> r.message == ClassName(k) + ".init() must be called before deflate()"
  {
    if state != Ready then Threw(ClassName(k) + ".init() must be called before deflate()")
    else Returned(state, flate)
  }

  /** The destructor: it ends the zlib stream only when one was set up, and always leaves the
      object `Ended`. */
  function Destroy(state: State): (r: (State, bool))
    ensures r.0 == Ended
    ensures r.1 <==> state == Ready
  {
    (Ended, state == Ready)
  }

  /** Over the life of an object: the stream is ended exactly when an `init` call reached
      `Ready`, and after the destructor no call reaches zlib. */
  lemma {:induction false} LifecycleEndsOnce(k: Kind, mode: Mode, windowBits: int, zlibInit: int -> int, flate: int)
    ensures var first := Init(k, Start, mode, windowBits, zlibInit);
            var s := if first.Returned? then first.state else Start;
            Destroy(s).1 <==> first.Returned? && first.result == ZOk
    ensures Flate(k, Destroy(Ready).0, flate).Threw?
            && Init(k, Destroy(Ready).0, mode, windowBits, zlibInit).Threw?
  {
  }
}
