/** The cookie record that src-tauri/src/cookie_manager.rs moves between its formats. */
module Cookies {
  import opened Text

  datatype UnifiedCookie = UnifiedCookie(name: string, value: string, domain: string, path: string, expires: I64,
                                         isSecure: bool, isHttpOnly: bool, sameSite: int, creationTime: I64,
                                         lastAccessed: I64)
}
