/**
 * The number of simultaneous connections handed to the segment downloader.
 */
module Download {

  const MinConnections := 1
  const MaxConnections := 16

  /**
   * `n = argv.conn`, then lowered to 16 or raised to 1: the count is
   * clamped into [1, 16], never rejected.
   */
  method ClampConnections(conn: int) returns (n: int)
    ensures MinConnections <= n <= MaxConnections
    ensures n == conn <==> MinConnections <= conn <= MaxConnections
    ensures conn > MaxConnections ==> n == MaxConnections
    ensures conn < MinConnections ==> n == MinConnections
  {
    n := conn;
    if n > MaxConnections {
      n := MaxConnections;
    } else if n < MinConnections {
      n := MinConnections;
    }
  }

  /** Clamping the clamped count again changes nothing. */
  method ClampTwice(conn: int) returns (once: int, twice: int)
    ensures twice == once
    ensures MinConnections <= twice <= MaxConnections
  {
    once := ClampConnections(conn);
    twice := ClampConnections(once);
  }
}
