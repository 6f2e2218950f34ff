/** Going through a Go map: the next key is any of those left. */
module MapOrder {

  method Pick<T>(s: set<T>) returns (x: T)
    requires s != {}
    ensures x in s
  {
    x :| x in s;
  }
}
