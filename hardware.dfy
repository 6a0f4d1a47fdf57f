/** What the nodes read from their peripherals, as plain values. The drivers themselves
    (ADC one-shot reads and calibration, the echo GPIO, the radio) are outside the model;
    a cycle receives what they reported. */
module Hardware {
  import opened Wrappers

  /** One supply-voltage conversion: whether the ADC unit handle exists, whether the
      one-shot read returned `ESP_OK`, the raw 12-bit count, and the calibrated millivolts
      when a calibration scheme is installed. */
  datatype AdcSample = AdcSample(unitReady: bool, readOk: bool, raw: int, calibratedMv: Option<int>)

  /** The radio oracle: the k-th call to `esp_now_send` in a call of the send routine
      returns `ESP_OK` when `sendOk[k]` holds; a missing entry is a failure. */
  function SendResult(sendOk: seq<bool>, k: nat): bool {
    k < |sendOk| && sendOk[k]
  }
}
