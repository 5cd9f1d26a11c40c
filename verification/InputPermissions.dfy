/** Which kinds of input the host lets a client send (common/Types.h). */
module InputPermissions {
  datatype Permissions = Permissions(controller: bool, keyboard: bool, mouse: bool, vibration: bool)
}
