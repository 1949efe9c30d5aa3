/** What a series of handlers does, one entry for each in turn; handlers beyond the script do nothing. */
module Script {

  function Head<T>(script: seq<seq<T>>): seq<T> {
    if script == [] then [] else script[0]
  }

  function Tail<T>(script: seq<seq<T>>): seq<seq<T>> {
    if script == [] then [] else script[1..]
  }
}
