/** What the linked containers share. */
module MiUtil {
  // The most nodes a container holds, and the result that reports a refusal.
  const MI_UTIL_MAXCOUNT: int := 0xFFFFFFFE
  const MI_UTIL_ERROR: int := 0xFFFFFFFF
}
