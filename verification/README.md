# Environmental-control node firmware: verified model of its sequential core

The firmware (`src/main.c`) tries to join a Wi-Fi network, then starts three
tasks (fan, humidifier, freshener) whether or not it joined
(`src/main.c:240-251`). Each task requests `<server>/devices/<name>` in a loop,
waiting one second between requests (`src/main.c:172`), and drives its relay
from the reply. This project models the
sequential logic inside that code as pure Dafny functions and proves
properties of them:

- `Wifi`: the link-event handler (`event_handler`) and the outcome test of
  `wifi_init_sta`. The state is a retry counter bounded by `MAX_RETRY` = 5 plus
  the CONNECTED and FAIL event-group bits. A step function handles each event
  and also reports whether the handler called connect. The blocking wait is
  modelled as "handle events until a bit is set".
- `HttpCapture`: the HTTP client callback (`_http_event_handler`). It copies an
  ON_DATA chunk into the 1024-byte response buffer with `strncpy`, terminates
  it, and raises `response_received`.
- `PollCycle`: one pass of a task's `while (1)` body. It decides between
  "set relay to (the buffer's C string == "1")" and "no relay call", then
  lowers the flag and zeroes the buffer. It also covers a run of many passes.
  The three tasks run the same body up to the log tag and the relay function
  (`src/main.c:160-173`, `:189-202` and `:218-231`), so one model serves all
  three.
- `Url`: the `snprintf` of `"%s/devices/<name>"` into the 128-byte URL buffer.
  URLs are byte sequences, so the 127-byte bound counts bytes as C does.
- `CString`: the C-string reading that `strcmp`, `strncpy` and `%s` share
  (the bytes before the first NUL).
- `Options`: the "maybe a value" type used for a wait still blocked, a cycle
  with no relay call, and a request with no accepted chunk.

Inputs the code gets from outside are parameters of the model:

- the sequence of link events;
- the sequence of HTTP events one request delivers to the callback;
- the OK/error result of `esp_http_client_perform`;
- the relay's previous level.

Behaviour of the code worth knowing:

- A failed or bodiless request makes no relay call: the relay keeps its level.
  A cycle makes zero or one relay call, not always one.
- A single ON_DATA chunk (`data_len`) of 1023 bytes or more is dropped. That is
  "no update", not "off".
- When a body arrives in several ON_DATA chunks, each accepted chunk overwrites
  the last, so only the last accepted chunk is compared. A long body split into
  chunks short enough to be accepted is therefore decided by its last chunk,
  not dropped.
- The comparison stops at the first NUL, so the body `"1\0…"` switches on.
- The link state is the retry counter plus the two event-group bits.
- `wifi_init_sta` unregisters both link-event handlers as soon as its wait
  returns (`src/main.c:119-121`). The `Wifi.Run` lemmas describe
  `event_handler` while it is registered, that is until `wifi_init_sta`
  returns. After that no event reaches the handler, so a link lost later is
  never reconnected. The fresh retry budget after GOT_IP exists only in the
  window before unregistration.

## Model

| member | source | states |
|---|---|---|
| `Wifi.Handle` | src/main.c:35-55 | STA_START calls connect and changes nothing else. DISCONNECTED below the bound calls connect once and adds 1 to the counter. DISCONNECTED at the bound makes no call, sets FAIL and leaves the counter. GOT_IP resets the counter to 0, sets CONNECTED and makes no call. Other Wi-Fi events are no-ops. Only GOT_IP can set CONNECTED and only a disconnect at the bound can set FAIL. Bits are never cleared and the bound `retry <= 5` is preserved. |
| `Wifi.RunKeepsInvariant` | src/main.c:41-53 | Over any event sequence, `retry <= MAX_RETRY` holds after every event and a set bit stays set. |
| `Wifi.RunBitsGrow` | src/main.c:46-53 | From any state, over any event sequence, a set bit stays set: the handler only ever sets bits. |
| `Wifi.DisconnectStorm` | src/main.c:40-48 | `n` disconnects in a row from a valid state issue `min(n, 5 - retry)` connects. The counter ends at `min(retry + n, 5)`. FAIL ends set exactly when `retry + n > 5` or it was already set. CONNECTED is untouched. |
| `Wifi.RetryScenario` | src/main.c:41-47 | From boot, the first 5 disconnects each reconnect without failing. From the 6th on there is no connect, FAIL is set and the counter stays at 5. |
| `Wifi.ConnectBudget` | src/main.c:38-47 | With no GOT_IP, the handler issues at most `5 - retry` connects beyond one per STA_START, and the counter never goes down. |
| `Wifi.GotIpRestoresBudget` | src/main.c:49-53 | After GOT_IP a full budget of 5 reconnects is available again, whatever came before, for as long as the handler stays registered. |
| `Wifi.Run` | src/main.c:35-55 | Events reach the handler one at a time, in order. The number of connect calls is at most one per event and at least one per STA_START. An empty sequence leaves the state as it was. |
| `Wifi.Outcome` | src/main.c:109-117 | The result is "connected" exactly when CONNECTED is set, even if FAIL is set too. It is "failed" exactly when FAIL alone is set, and "unexpected" when neither is. |
| `Wifi.WaitBits` | src/main.c:99-105 | When the wait returns, the state it returns has at least one bit set. It stays blocked exactly when the whole event sequence sets no bit. |
| `Wifi.WaitBitsFirstResolvedPrefix` | src/main.c:99-105 | The wait returns the state after the shortest prefix of events that sets a bit, so it returns as soon as either bit is set. |
| `Wifi.InitSta` | src/main.c:101-117 | `wifi_init_sta` never reports the unexpected case. |
| `Wifi.FailNeedsDisconnects` | src/main.c:41-47 | Starting from a state with no bit set, the wait reports failure only if the events contained at least `5 + 1 - retry` disconnects. |
| `Wifi.WaitUnderDisconnects` | src/main.c:101-112 | Under disconnects alone, the wait returns exactly when `retry + n > 5`, and then it observes FAIL alone with the counter at 5. Otherwise it is still blocked. |
| `Wifi.InitStaScenarios` | src/main.c:101-117 | START then GOT_IP gives "connected". START then 6 disconnects gives "failed". START then 5 disconnects leaves the wait blocked. |
| `CString.UpTo` | src/main.c:164 | The C string read from a buffer is a prefix of it. It contains no terminator. It is either the whole buffer or is followed by the terminator. |
| `CString.UpToCharacterization` | src/main.c:164 | Those three facts determine the C string uniquely, in both directions. |
| `CString.CStrIsOne` | src/main.c:164 | `strcmp(buf, "1") == 0` holds exactly when byte 0 is `'1'` and byte 1, if present, is NUL. |
| `HttpCapture.Strncpy` | src/main.c:141 | `strncpy(dst, src, n)` copies the bytes of `src` before its first NUL and zero-fills up to `n`. Bytes from `n` on are untouched. |
| `HttpCapture.HandleData` | src/main.c:139-145 | A chunk with `data_len < 1023` replaces the buffer's C string with the chunk's own C string. It writes NUL at index `data_len`, keeps bytes after that index, and raises the flag. A longer chunk leaves buffer and flag unchanged. A terminated buffer stays terminated. |
| `HttpCapture.HandleHttp` | src/main.c:138-147 | Only ON_DATA acts: any other event and any too-long chunk leave buffer and flag unchanged. An accepted chunk raises the flag and its C string becomes the buffer's. Every event keeps the buffer at 1024 bytes and terminated. |
| `HttpCapture.Deliver` | src/main.c:138-147 | All events of one request keep the buffer well formed: 1024 bytes, terminated. |
| `HttpCapture.DeliverKeepsLastChunk` | src/main.c:139-145 | After a request the buffer's string is that of the last accepted chunk and the flag is up. With no accepted chunk, buffer and flag are exactly as before. |
| `PollCycle.Decide` | src/main.c:161-168 | A relay call happens exactly when `perform` returned OK and the flag is up. Its value is true exactly when buffer byte 0 is `'1'` and byte 1 is NUL. |
| `PollCycle.Cycle` | src/main.c:160-173 | At most one relay call. Without a call the relay keeps its level; with one the relay takes the call's value. A call happens exactly when the result is OK and a body was captured. Its value is whether the last accepted chunk's string is `"1"`. Afterwards the flag is down and all 1024 bytes are zero, on success and on failure alike. |
| `PollCycle.Poll` | src/main.c:160-173 | The loop runs the passes in order. Each pass starts from the capture state the previous pass left, which is the cleared state, so no body carries over: every pass after the first is decided by its own response alone. The relay ends at the decision of the last later pass that made one, or where the first pass left it if none did. No passes leave the relay as it was. |
| `PollCycle.PollFollowsLastDecision` | src/main.c:160-173 | Over any number of cycles from the cleared state, the relay ends at the decision of the last request that made one. It keeps its initial level if none did. No body carries over between cycles. |
| `PollCycle.TransportFailureHoldsRelay` | src/main.c:166-171 | While every request fails, the relay keeps its level. Transport loss does not switch outputs off. |
| `PollCycle.NoDecisionOnFailures` | src/main.c:162 | Requests that all failed make no relay decision. |
| `PollCycle.SingleChunk` | src/main.c:161-165 | A successful request with one accepted chunk sets the relay once, to whether the chunk's C string is `"1"`. |
| `PollCycle.SingleTextChunk` | src/main.c:164 | For a body sent as one accepted ON_DATA chunk (fewer than 1023 bytes) with no NUL bytes, the relay is set to true exactly when the chunk equals `"1"`. A body split over several chunks is decided by its last accepted chunk instead (`SplitBodyLastChunkDecides`). |
| `PollCycle.SplitBodyLastChunkDecides` | src/main.c:139-145 | A successful request whose body arrives as two accepted ON_DATA chunks sets the relay to whether the second chunk's C string is `"1"`. The first chunk is overwritten. |
| `PollCycle.OversizedBody` | src/main.c:140 | A request whose body is a single ON_DATA chunk (`data_len`) of 1023 or more bytes makes no relay call and leaves the relay unchanged. |
| `PollCycle.PayloadExamples` | src/main.c:164 | `"1"` switches on. `"0"`, `""`, `"1\n"` and `" 1"` switch off. `"1\0" + more` switches on. |
| `Url.Formatted` | src/main.c:153 | The formatted URL bytes contain no NUL. |
| `Url.Snprintf` | src/main.c:153 | `snprintf` into `size` bytes stores the first `min(len, size - 1)` bytes of the text, then a NUL. |
| `Url.BuildUrl` | src/main.c:150-153 | The URL read back from the 128-byte buffer has at most 127 bytes and is a prefix of `base + "/devices/" + name`. It is all of that text when its bytes fit, and exactly 127 bytes when they do not. |
| `Url.PlainUrl` | src/main.c:153 | A NUL-free base and name whose bytes fit are requested verbatim as `base + "/devices/" + name`. |
| `Url.DeviceUrl` | src/main.c:153 | The fan, humidifier and freshener tasks request `server_url/devices/<name>` in full (the format strings at lines 153, 182 and 211). |
| `Url.UrlsDistinct` | src/main.c:153 | When both URLs fit in 127 bytes, two tasks request the same URL exactly when their device names are equal. |
| `Url.DeviceUrlsDistinct` | src/main.c:153 | The three device tasks request pairwise different URLs. |

## Left out

- ESP-IDF and FreeRTOS plumbing is not modelled: network-interface and event-loop setup, `esp_wifi_*` configuration, handler register/unregister, event-group creation and deletion, `nvs_flash_init`, `xTaskCreate`, `vTaskDelay`, and logging. These are foreign calls with no visible semantics. The events they produce are inputs.
- `esp_http_client_perform` and the HTTP transport are not modelled. A request is an arbitrary sequence of callback events followed by an arbitrary OK/error result.
- GPIO driver calls are not modelled (`gpio_set_level`, pad select, direction). Each relay is an abstract boolean, and a relay call is the value passed to `fan_control`/`humid_control`/`fresh_control`.
- The shared buffer is modelled as if each task owned its own. In the source the three tasks share one global `response_buffer` and `response_received` with no locking (`src/main.c:23-24`), which is a data race. The model assumes exclusive ownership per task and analyses each task's cycles in isolation. Concurrency is outside what these pure functions express.
- Events that arrive after the wait in `wifi_init_sta` returns and before the handlers are unregistered are ignored. They cannot change the outcome, which is read from the bits the wait returned.
- The callback's return value is not modelled. It is always `ESP_OK`.
- Negative `data_len` is not modelled. A chunk is a byte sequence and its length is `data_len`.
- `src/main.c` has no safety interlock and no minimum-on timer for the freshener, so neither is part of this model.

Integer widths: `s_retry_num` never exceeds 5 and `data_len` is compared before use, so no wrap-around can occur. Unbounded integers model them exactly.
