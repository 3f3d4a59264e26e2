/** Constants of the HTTP layer. */
module Http {
  const CRLF: string := "\r\n"
  const HEADER_MAX_LENGTH := 8192
  const HEADER_MAX_COUNT := 100
}
