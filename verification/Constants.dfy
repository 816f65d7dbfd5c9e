/** Constants of the source that several modules share. */
module Constants {
  import opened Bytes

  const VERSION: byte := 1                // CefC_Version
  const MAX_KLEN: nat := 1024             // CefC_Max_KLen
  const FAILED: int := -1                 // CefC_Hash_Faile
  const CLEANING_TIME: nat := 1_000_000   // CefC_Pit_CleaningTime, in microseconds
}
