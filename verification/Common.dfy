/** Shared small datatypes and the result codes of include/funchook.h. */
module Common {
  type byte = x: int | 0 <= x < 256

  datatype Option<+T> = None | Some(value: T)

  datatype Result<+T> = Ok(value: T) | Err(code: int)

  const INTERNAL_ERROR := -1
  const SUCCESS := 0
  const OUT_OF_MEMORY := 1
  const ALREADY_INSTALLED := 2
  const DISASSEMBLY := 3
  const IP_RELATIVE_OFFSET := 4
  const CANNOT_FIX_IP_RELATIVE := 5
  const FOUND_BACK_JUMP := 6
  const TOO_SHORT_INSTRUCTIONS := 7
  const MEMORY_ALLOCATION := 8
  const MEMORY_FUNCTION := 9
  const NOT_INSTALLED := 10
  const NO_AVAILABLE_REGISTERS := 11
  const NO_SPACE_NEAR_TARGET_ADDR := 12

  /** Different multiples of a number are at least that far apart. */
  lemma MultiplesApart(page: nat, x: int, y: int)
    requires page > 0
    ensures x < y ==> page * x + page <= page * y
  {
    if x < y {
      var d := y - x - 1;
      assert page * y == page * x + page + page * d;
      assert page * d >= 0;
    }
  }
}
