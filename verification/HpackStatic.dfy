/** The static table (Appendix A of RFC 7541); index 0 is unused. */
module HpackStatic {
  import opened Bytes
  import opened HpackTable

  const STATIC_SIZE := 62

  function Entry(name: string, value: string): Header {
    Header(Ascii(name), Ascii(value), false)
  }

  function StaticEntry(i: nat): Header {
    if i == 1 then Entry(":authority", "")
    else if i == 2 then Entry(":method", "GET")
    else if i == 3 then Entry(":method", "POST")
    else if i == 4 then Entry(":path", "/")
    else if i == 5 then Entry(":path", "/index.html")
    else if i == 6 then Entry(":scheme", "http")
    else if i == 7 then Entry(":scheme", "https")
    else if i == 8 then Entry(":status", "200")
    else if i == 9 then Entry(":status", "204")
    else if i == 10 then Entry(":status", "206")
    else if i == 11 then Entry(":status", "304")
    else if i == 12 then Entry(":status", "400")
    else if i == 13 then Entry(":status", "404")
    else if i == 14 then Entry(":status", "500")
    else if i == 15 then Entry("accept-charset", "")
    else if i == 16 then Entry("accept-encoding", "gzip, deflate")
    else if i == 17 then Entry("accept-language", "")
    else if i == 18 then Entry("accept-ranges", "")
    else if i == 19 then Entry("accept", "")
    else if i == 20 then Entry("access-control-allow-origin", "")
    else if i == 21 then Entry("age", "")
    else if i == 22 then Entry("allow", "")
    else if i == 23 then Entry("authorization", "")
    else if i == 24 then Entry("cache-control", "")
    else if i == 25 then Entry("content-disposition", "")
    else if i == 26 then Entry("content-encoding", "")
    else if i == 27 then Entry("content-language", "")
    else if i == 28 then Entry("content-length", "")
    else if i == 29 then Entry("content-location", "")
    else if i == 30 then Entry("content-range", "")
    else if i == 31 then Entry("content-type", "")
    else if i == 32 then Entry("cookie", "")
    else if i == 33 then Entry("date", "")
    else if i == 34 then Entry("etag", "")
    else if i == 35 then Entry("expect", "")
    else if i == 36 then Entry("expires", "")
    else if i == 37 then Entry("from", "")
    else if i == 38 then Entry("host", "")
    else if i == 39 then Entry("if-match", "")
    else if i == 40 then Entry("if-modified-since", "")
    else if i == 41 then Entry("if-none-match", "")
    else if i == 42 then Entry("if-range", "")
    else if i == 43 then Entry("if-unmodified-since", "")
    else if i == 44 then Entry("last-modified", "")
    else if i == 45 then Entry("link", "")
    else if i == 46 then Entry("location", "")
    else if i == 47 then Entry("max-forwards", "")
    else if i == 48 then Entry("proxy-authenticate", "")
    else if i == 49 then Entry("proxy-authorization", "")
    else if i == 50 then Entry("range", "")
    else if i == 51 then Entry("referer", "")
    else if i == 52 then Entry("refresh", "")
    else if i == 53 then Entry("retry-after", "")
    else if i == 54 then Entry("server", "")
    else if i == 55 then Entry("set-cookie", "")
    else if i == 56 then Entry("strict-transport-security", "")
    else if i == 57 then Entry("transfer-encoding", "")
    else if i == 58 then Entry("user-agent", "")
    else if i == 59 then Entry("vary", "")
    else if i == 60 then Entry("via", "")
    else Entry("www-authenticate", "")
  }
}
