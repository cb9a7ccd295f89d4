/** Page size and page boundaries, `kernel/include/memory_layout.h`. */
module Pages {

  const PG_SIZE: nat := 4096

  /** PG_FLOOR and PG_CEIL. */
  function Floor(a: nat): nat { a - a % PG_SIZE }

  function Ceil(a: nat): nat { Floor(a + PG_SIZE - 1) }
}
