/**
 "Maybe a value" results, used by the wait of `wifi_init_sta` (no state yet
 when the wait is still blocked), by the relay decision of a poll cycle (no
 relay call) and by the search for the last accepted response chunk.
 */
module Options {
  datatype Option<T> = Some(value: T) | None
}
