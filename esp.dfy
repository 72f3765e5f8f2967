/** Types shared by the LED driver and the RMT peripheral model: the C integer
    width used at the API boundary, ESP-IDF error codes, and what a call does. */
module Esp {

  /** C `uint32_t`. */
  newtype u32 = x: int | 0 <= x < 0x1_0000_0000

  /** `esp_err_t` values (ESP-IDF's esp_err.h). */
  type EspErr = int
  const ESP_OK: EspErr := 0
  const ESP_ERR_INVALID_ARG: EspErr := 0x102

  /** How a call to the driver ends: it returns an error code to its caller,
      or `ESP_ERROR_CHECK` saw a non-OK code and aborted the program. */
  datatype Outcome = Returned(code: EspErr) | Aborted(code: EspErr)

  /** `ESP_ERROR_CHECK(e)`: continue when `e` is `ESP_OK`, otherwise abort. */
  predicate ErrorCheckPasses(e: EspErr) {
    e == ESP_OK
  }
}
