/** Key identities: the virtual-key code read by the low-level hook, cast to the
    Windows Forms `Keys` enumeration, with the members the application names. */
module Keys {

  type KeyCode = int

  const None: KeyCode := 0x00
  const Return: KeyCode := 0x0D
  const LWin: KeyCode := 0x5B
  const RWin: KeyCode := 0x5C
  const NumLock: KeyCode := 0x90
}
