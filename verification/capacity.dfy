/** `check_capacity`, written out identically in steganography_utils.py,
    tempCodeRunnerFile.py and main.py: an image of `width * height` pixels with
    `channels` colour channels holds `width * height * channels * k // 8` whole
    bytes at `k` LSBs per channel, and a payload larger than that is refused.
    Opening the image and reading the payload's size are I/O and enter as the
    numbers they produce. */
module Capacity {

  /** True when the payload is accepted. */
  function CheckCapacity(width: nat, height: nat, channels: nat, k: nat, payloadSize: nat): (ok: bool)
    ensures ok <==> 8 * payloadSize <= width * height * channels * k
  {
    var maxCapacity := width * height * channels * k / 8;
    FloorBytes(width * height * channels * k, payloadSize);
    !(payloadSize > maxCapacity)
  }

  /** `n <= bits // 8` exactly when `8 * n <= bits`. */
  lemma {:induction false} FloorBytes(bits: nat, n: nat)
    ensures n <= bits / 8 <==> 8 * n <= bits
  {
    var q, r := bits / 8, bits % 8;
    assert bits == 8 * q + r && 0 <= r < 8;
  }
}
